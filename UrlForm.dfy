/**
  Query strings built from `name=value` fields joined by `&`: the
  application/x-www-form-urlencoded body that `compose_send` posts, and the
  header fields of a `mailto:` URI (RFC 6068, section 2).  The builders encode
  each value with `encodeURIComponent`; the parsers are the reference readers,
  which split on `&`, split each field at its first `=` and percent-decode both
  halves (a form body also reads `+` as a space; a `mailto:` URI does not).
 */
module UrlForm {
  import opened Common
  import opened Text
  import opened UriComponent

  type Field = (string, string)

  /** A name the builders can put in front of `=` unchanged: nothing a parser would read differently. */
  predicate PlainName(k: string) {
    '&' !in k && '=' !in k && '%' !in k && '+' !in k
  }

  /** `k + "=" + encodeURIComponent(v)` for every field, in order. */
  function EncodeFields(fs: seq<Field>): (ps: seq<string>)
    ensures |ps| == |fs|
  {
    seq(|fs|, i requires 0 <= i < |fs| => fs[i].0 + "=" + Encode(fs[i].1))
  }

  /** The fields joined by `&`. */
  function Query(fs: seq<Field>): string {
    Join(EncodeFields(fs), "&")
  }

  function PlusToSpace(s: string): (r: string)
    ensures |r| == |s|
  {
    if s == [] then [] else [if s[0] == '+' then ' ' else s[0]] + PlusToSpace(s[1..])
  }

  lemma {:induction false} PlusToSpaceNoPlus(s: string)
    requires '+' !in s
    ensures PlusToSpace(s) == s
  {
    if s != [] {
      PlusToSpaceNoPlus(s[1..]);
      assert s == [s[0]] + s[1..];
    }
  }

  /** Percent-decodes one half of a field; a form body first reads `+` as a space. */
  function DecodePart(s: string, form: bool): Option<string> {
    Decode(if form then PlusToSpace(s) else s)
  }

  /** Reads the fields of a query string; None when a part is not valid percent-encoding. */
  function ParseQuery(q: string, form: bool): Option<seq<Field>> {
    ParsePieces(Split(q, '&'), form)
  }

  /** A field split at its first `=`; without one, the whole field is the name and the value is empty. */
  function SplitField(p: string): Field {
    match IndexOf(p, '=')
    case None => (p, "")
    case Some(i) => (p[..i], p[i + 1..])
  }

  function ParsePieces(ps: seq<string>, form: bool): (r: Option<seq<Field>>)
  {
    if ps == [] then Some([])
    else if ps[0] == "" then ParsePieces(ps[1..], form)
    else
      var nv := SplitField(ps[0]);
      match (DecodePart(nv.0, form), DecodePart(nv.1, form), ParsePieces(ps[1..], form))
      case (Some(n), Some(v), Some(rest)) => Some([(n, v)] + rest)
      case _ => None
  }

  /** Reading back one built field gives its name and value. */
  lemma ParseField(k: string, v: string, rest: seq<string>, form: bool)
    requires PlainName(k)
    ensures ParsePieces([k + "=" + Encode(v)] + rest, form)
         == match ParsePieces(rest, form) case None => None case Some(fs) => Some([(k, v)] + fs)
  {
    var p := k + "=" + Encode(v);
    var ps := [p] + rest;
    assert ps[0] == p && ps[1..] == rest;
    assert SplitField(p) == (k, Encode(v)) by {
      assert p[..|k|] == k && p[|k|] == '=' && p[|k| + 1..] == Encode(v);
      IndexOfAt(p, '=', |k|);
    }
    assert DecodePart(k, form) == Some(k) by {
      DecodePlain(k);
      if form {
        PlusToSpaceNoPlus(k);
      }
    }
    assert DecodePart(Encode(v), form) == Some(v) by {
      DecodeEncode(v);
      if form {
        EncodeAlphabet(v);
        PlusToSpaceNoPlus(Encode(v));
      }
    }
  }

  lemma {:induction false} ParsePiecesOfFields(fs: seq<Field>, form: bool)
    requires forall i :: 0 <= i < |fs| ==> PlainName(fs[i].0)
    ensures ParsePieces(EncodeFields(fs), form) == Some(fs)
  {
    if fs != [] {
      ParsePiecesOfFields(fs[1..], form);
      EncodeFieldsCons(fs);
      ParseField(fs[0].0, fs[0].1, EncodeFields(fs[1..]), form);
      assert fs == [fs[0]] + fs[1..];
    }
  }

  lemma EncodeFieldsCons(fs: seq<Field>)
    requires fs != []
    ensures EncodeFields(fs) == [fs[0].0 + "=" + Encode(fs[0].1)] + EncodeFields(fs[1..])
  {
  }

  lemma EncodeFieldsAppend(a: seq<Field>, b: seq<Field>)
    ensures EncodeFields(a + b) == EncodeFields(a) + EncodeFields(b)
  {
  }

  lemma NoAmpersandInField(k: string, v: string)
    requires PlainName(k)
    ensures '&' !in k + "=" + Encode(v)
  {
    EncodeAlphabet(v);
  }

  /** A query built from plainly named fields reads back as exactly those fields, in order. */
  lemma ParseQueryOfQuery(fs: seq<Field>, form: bool)
    requires forall i :: 0 <= i < |fs| ==> PlainName(fs[i].0)
    ensures ParseQuery(Query(fs), form) == Some(fs)
  {
    var ps := EncodeFields(fs);
    if fs == [] {
      assert Split("", '&') == [""];
      assert [""][1..] == [];
    } else {
      forall i | 0 <= i < |ps|
        ensures '&' !in ps[i]
      {
        NoAmpersandInField(fs[i].0, fs[i].1);
      }
      SplitJoin(ps, '&');
    }
    ParsePiecesOfFields(fs, form);
  }

  /** A `mailto:` URI: the recipient, then `?` and the header fields. */
  function Mailto(to: string, fs: seq<Field>): string {
    "mailto:" + to + "?" + Query(fs)
  }

  /** Reads a `mailto:` URI into its recipient and its percent-decoded header fields. */
  function ParseMailto(u: string): Option<(string, seq<Field>)> {
    if |u| < 7 || u[..7] != "mailto:" then None
    else
      var rest := u[7..];
      match IndexOf(rest, '?')
      case None => Some((rest, []))
      case Some(i) =>
        match ParseQuery(rest[i + 1..], false)
        case None => None
        case Some(fs) => Some((rest[..i], fs))
  }

  /** Reading a built `mailto:` URI gives back its recipient and its fields. */
  lemma ParseMailtoOfMailto(to: string, fs: seq<Field>)
    requires '?' !in to
    requires forall i :: 0 <= i < |fs| ==> PlainName(fs[i].0)
    ensures ParseMailto(Mailto(to, fs)) == Some((to, fs))
  {
    var u := Mailto(to, fs);
    var rest := u[7..];
    assert u[..7] == "mailto:";
    assert rest == to + "?" + Query(fs);
    assert rest[..|to|] == to && rest[|to|] == '?';
    IndexOfAt(rest, '?', |to|);
    assert rest[|to| + 1..] == Query(fs);
    ParseQueryOfQuery(fs, false);
  }

  /** One field whose value needs no decoding reads back as itself. */
  lemma ParseQueryOne(q: string, k: string, v: string)
    requires q == k + "=" + v
    requires PlainName(k) && '%' !in v && '&' !in v
    ensures ParseQuery(q, false) == Some([(k, v)])
  {
    assert '&' !in q;
    assert Split(q, '&') == [q];
    assert q[..|k|] == k && q[|k|] == '=' && q[|k| + 1..] == v;
    IndexOfAt(q, '=', |k|);
    DecodePlain(k);
    DecodePlain(v);
    var ps := [q];
    assert ps[0] == q && ps[1..] == [];
    assert ParsePieces(ps[1..], false) == Some([]);
    assert [(k, v)] + [] == [(k, v)];
  }

  /** A `mailto:` URI with one field whose value needs no decoding reads back as that field, untouched. */
  lemma ParseMailtoOne(to: string, k: string, v: string)
    requires '?' !in to && PlainName(k) && '%' !in v && '&' !in v
    ensures ParseMailto("mailto:" + to + "?" + k + "=" + v) == Some((to, [(k, v)]))
  {
    var u := "mailto:" + to + "?" + k + "=" + v;
    var rest := u[7..];
    var q := k + "=" + v;
    assert u[..7] == "mailto:";
    assert rest == to + "?" + q;
    assert rest[..|to|] == to && rest[|to|] == '?';
    IndexOfAt(rest, '?', |to|);
    assert rest[|to| + 1..] == q;
    ParseQueryOne(q, k, v);
  }
}
