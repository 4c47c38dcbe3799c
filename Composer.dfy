/**
  The web client's composer (`webui/js/source/composer.js`): the quoted reply
  text, the `mailto:` link that hands a reply to the reader's own mail client,
  the header map filled when the composer opens, and the form body posted to
  `/api/compose.lua`.  The page-level globals `mua_trigger`, `mua_list`,
  `mua_mid` and `mua_headers` become the fields of a `Composer` object.
 */
module Composer {
  import opened Common
  import opened Text
  import opened UriComponent
  import opened UrlForm
  import opened JsRegex
  import opened Records

  // ---------------------------------------------------------------------------
  // composer_re: the quoted reply text
  // ---------------------------------------------------------------------------

  /** The attribution line: the sender with its first `<...>` part (and the spaces before it) removed. */
  function Attribution(e: EmailRecord): string {
    "\n\nOn " + e.date + " " + RemoveAngled(e.from, false) + " wrote:\n"
  }

  /** Every line prefixed with `> `. */
  function Quote(lines: seq<string>): (r: seq<string>)
    ensures |r| == |lines|
  {
    seq(|lines|, i requires 0 <= i < |lines| => "> " + lines[i])
  }

  /** What `composer_re` returns for an email. */
  function ReplyText(e: EmailRecord): string {
    Attribution(e) + Join(Quote(Lines(e.body)), "\n")
  }

  /**
    `composer_re`: splits the body on `\r?\n` into an array, rewrites every
    entry in place with the quote prefix and appends the joined lines to the
    attribution.
   */
  method ComposerRe(e: EmailRecord) returns (re: string)
    ensures re == ReplyText(e)
  {
    var ls := Lines(e.body);
    var lines := new string[|ls|](i requires 0 <= i < |ls| => ls[i]);
    for i := 0 to lines.Length
      invariant forall j :: 0 <= j < i ==> lines[j] == "> " + ls[j]
      invariant forall j :: i <= j < lines.Length ==> lines[j] == ls[j]
    {
      lines[i] := "> " + lines[i];
    }
    assert lines[..] == Quote(ls);
    re := Attribution(e);
    re := re + Join(lines[..], "\n");
  }

  /**
    The quoted part of a reply has one line per line of the body, each the
    body's line behind `> `; without carriage returns the unquoted lines join
    back into the body.
   */
  lemma QuotedLines(body: string)
    ensures Split(Join(Quote(Lines(body)), "\n"), '\n') == Quote(Lines(body))
    ensures |Quote(Lines(body))| == |Split(body, '\n')|
    ensures forall i :: 0 <= i < |Lines(body)| ==> Quote(Lines(body))[i] == "> " + Lines(body)[i]
    ensures '\r' !in body ==> Join(Lines(body), "\n") == body
  {
    var ls := Lines(body);
    var q := Quote(ls);
    forall i | 0 <= i < |q|
      ensures '\n' !in q[i]
    {
      assert q[i] == "> " + ls[i];
    }
    SplitJoin(q, '\n');
    LinesCount(body);
    if '\r' !in body {
      JoinSplit(body, '\n');
    }
  }

  // ---------------------------------------------------------------------------
  // mua_link: the mailto: link
  // ---------------------------------------------------------------------------

  /** Code units of a character in JavaScript's UTF-16 strings. */
  function Utf16Width(c: char): nat {
    if c as int >= 0x10000 then 2 else 1
  }

  /** `s.length` in JavaScript. */
  function Utf16Length(s: string): nat {
    if s == [] then 0 else Utf16Width(s[0]) + Utf16Length(s[1..])
  }

  /** A string of characters that are one code unit each. */
  predicate Bmp(s: string) {
    forall i :: 0 <= i < |s| ==> s[i] as int < 0x10000
  }

  /**
    `s.substring(0, n)` as far as `encodeURIComponent` can use it: None when the
    cut falls inside a surrogate pair, which leaves a lone surrogate that
    `encodeURIComponent` rejects with a URIError.
   */
  function Utf16Prefix(s: string, n: nat): Option<string> {
    if n == 0 || s == [] then Some([])
    else if Utf16Width(s[0]) > n then None
    else
      match Utf16Prefix(s[1..], n - Utf16Width(s[0]))
      case None => None
      case Some(p) => Some([s[0]] + p)
  }

  /** A cut that succeeds keeps a prefix of exactly the asked length (or the whole string). */
  lemma {:induction false} Utf16PrefixSpec(s: string, n: nat)
    ensures Utf16Prefix(s, n).Some? ==>
              var p := Utf16Prefix(s, n).value;
              p <= s && Utf16Length(p) == (if n <= Utf16Length(s) then n else Utf16Length(s))
  {
    if s != [] && n > 0 {
      var w := Utf16Width(s[0]);
      if n >= w {
        Utf16PrefixSpec(s[1..], n - w);
        match Utf16Prefix(s[1..], n - w)
        case None =>
        case Some(p) =>
          assert Utf16Prefix(s, n) == Some([s[0]] + p);
          assert ([s[0]] + p)[1..] == p;
      }
    }
  }

  /** Where every character is one code unit, the length is the character count and the cut always succeeds. */
  lemma {:induction false} Utf16PrefixBmp(s: string, n: nat)
    requires Bmp(s)
    ensures Utf16Length(s) == |s|
    ensures Utf16Prefix(s, n) == Some(if n <= |s| then s[..n] else s)
  {
    Utf16LengthBmp(s);
    if s != [] && n > 0 {
      BmpTail(s);
      Utf16PrefixBmp(s[1..], n - 1);
      var p := Utf16Prefix(s[1..], n - 1).value;
      assert Utf16Prefix(s, n) == Some([s[0]] + p);
      if n <= |s| {
        assert s[..n] == [s[0]] + s[1..][..n - 1];
      } else {
        assert s == [s[0]] + s[1..];
      }
    }
  }

  lemma {:induction false} Utf16LengthBmp(s: string)
    requires Bmp(s)
    ensures Utf16Length(s) == |s|
  {
    if s != [] {
      BmpTail(s);
      Utf16LengthBmp(s[1..]);
    }
  }

  lemma BmpTail(s: string)
    requires Bmp(s) && s != []
    ensures Bmp(s[1..]) && Utf16Width(s[0]) == 1
  {
    forall i | 0 <= i < |s[1..]|
      ensures s[1..][i] as int < 0x10000
    {
      assert s[1..][i] == s[i + 1];
    }
  }

  /** Longest quoted body the link carries: longer links run into length limits. */
  const MaxLinkBody: nat := 16000

  const TruncationNote: string := "\n[message truncated...]"

  /** The body of the link: cut to 16000 code units and marked when longer; None on a URIError. */
  function Shorten(raw: string): Option<string> {
    if Utf16Length(raw) > MaxLinkBody then
      match Utf16Prefix(raw, MaxLinkBody)
      case None => None
      case Some(p) => Some(p + TruncationNote)
    else Some(raw)
  }

  /**
    A body of at most 16000 code units is kept whole; a longer one becomes its
    first 16000 code units and the truncation note (its first 16000 characters
    when every character is one code unit).
   */
  lemma ShortenSpec(raw: string)
    ensures Utf16Length(raw) <= MaxLinkBody ==> Shorten(raw) == Some(raw)
    ensures Utf16Length(raw) > MaxLinkBody && Shorten(raw).Some? ==>
              var p := Shorten(raw).value[..|Shorten(raw).value| - |TruncationNote|];
              Shorten(raw).value == p + TruncationNote && p <= raw && Utf16Length(p) == MaxLinkBody
    ensures Bmp(raw) && |raw| > MaxLinkBody ==> Shorten(raw) == Some(raw[..MaxLinkBody] + TruncationNote)
  {
    Utf16PrefixSpec(raw, MaxLinkBody);
    if Bmp(raw) {
      Utf16PrefixBmp(raw, MaxLinkBody);
    }
    if Utf16Length(raw) > MaxLinkBody && Shorten(raw).Some? {
      var p := Utf16Prefix(raw, MaxLinkBody).value;
      assert (p + TruncationNote)[..|p|] == p;
    }
  }

  /** `email['message-id'] && email['message-id'].length > 0`. */
  predicate HasMessageId(e: EmailRecord) {
    e.messageId.Some? && e.messageId.value != ""
  }

  /** Field name of the threading header in the link the code writes: `&amp;` stays literal in a URI built in JavaScript. */
  const InReplyToAsWritten: string := "amp;In-Reply-To"

  /** Field name RFC 6068 readers look for. */
  const InReplyTo: string := "In-Reply-To"

  /** The text of a reply link. */
  function ReplyLink(addr: string, subject: string, replyKey: string, id: string, short: string): string {
    "mailto:" + addr + "?subject=" + Encode(subject) + "&" + replyKey + "=" + Encode(id) + "&body=" + Encode(short)
  }

  /**
    `mua_link(email, xlist)` with the given name for the threading field.
    Without an email and with a non-empty list it is a fixed new-thread link;
    without an email and without a list `composer_re(null)` throws (None); a
    cut inside a surrogate pair throws a URIError (None).
   */
  function MuaLinkWith(email: Option<EmailRecord>, xlist: string, replyKey: string): Option<string> {
    if email.None? && xlist != "" then Some("mailto:" + xlist + "?subject=Subject+goes+here")
    else if email.None? then None
    else
      var e := email.value;
      match Shorten(ReplyText(e))
      case None => None
      case Some(short) => Some(ReplyLink(ListAddress(e.listRaw), "RE: " + e.subject, replyKey, JsText(e.messageId), short))
  }

  /** The link as the code writes it, with `&amp;In-Reply-To=`. */
  function MuaLinkAsWritten(email: Option<EmailRecord>, xlist: string): Option<string> {
    MuaLinkWith(email, xlist, InReplyToAsWritten)
  }

  /** The link with a plain `&In-Reply-To=`; the composer below uses this one. */
  function MuaLink(email: Option<EmailRecord>, xlist: string): Option<string> {
    MuaLinkWith(email, xlist, InReplyTo)
  }

  /** A reply link is the `mailto:` URI of its three fields. */
  lemma ReplyLinkIsMailto(addr: string, subject: string, replyKey: string, id: string, short: string)
    ensures ReplyLink(addr, subject, replyKey, id, short)
         == Mailto(addr, [("subject", subject), (replyKey, id), ("body", short)])
  {
    var fs := [("subject", subject), (replyKey, id), ("body", short)];
    var a, b, c := "subject=" + Encode(subject), replyKey + "=" + Encode(id), "body=" + Encode(short);
    var ps := EncodeFields(fs);
    assert ps[0] == a && ps[1] == b && ps[2] == c;
    assert ps == [a, b, c];
    JoinThree(a, b, c, "&");
    LinkLayout(addr, Encode(subject), replyKey, Encode(id), Encode(short));
  }

  lemma LinkLayout(addr: string, s: string, k: string, i: string, b: string)
    ensures "mailto:" + addr + "?subject=" + s + "&" + k + "=" + i + "&body=" + b
         == "mailto:" + addr + "?" + (("subject=" + s) + "&" + ((k + "=" + i) + "&" + ("body=" + b)))
  {
  }

  /** A mail client reading a reply link finds the list address and the three fields, in order. */
  lemma ReplyLinkReadsBack(addr: string, subject: string, replyKey: string, id: string, short: string)
    requires '?' !in addr && PlainName(replyKey)
    ensures ParseMailto(ReplyLink(addr, subject, replyKey, id, short))
         == Some((addr, [("subject", subject), (replyKey, id), ("body", short)]))
  {
    ReplyLinkIsMailto(addr, subject, replyKey, id, short);
    ParseMailtoOfMailto(addr, [("subject", subject), (replyKey, id), ("body", short)]);
  }

  lemma ListAddressNoQuery(listRaw: string)
    requires '?' !in listRaw
    ensures '?' !in ListAddress(listRaw)
  {
    var s := RemoveAngles(listRaw);
    assert multiset(s)['?'] == multiset(listRaw)['?'] == 0;
    var r := ReplaceFirst(s, '.', '@');
    forall i | 0 <= i < |r|
      ensures r[i] != '?'
    {
      ReplaceFirstPointwise(s, '.', '@', i);
      assert s[i] in multiset(s);
    }
  }

  /** The value of the first field with the given name. */
  function Lookup(h: seq<Field>, k: string): (r: Option<string>)
    ensures r.Some? ==> (k, r.value) in h
  {
    if h == [] then None
    else if h[0].0 == k then Some(h[0].1)
    else Lookup(h[1..], k)
  }

  /** Looking a name up in a concatenation: the first part wins. */
  lemma {:induction false} LookupAppend(a: seq<Field>, b: seq<Field>, k: string)
    ensures Lookup(a + b, k) == if Lookup(a, k).Some? then Lookup(a, k) else Lookup(b, k)
  {
    if a != [] {
      assert (a + b)[0] == a[0];
      assert (a + b)[1..] == a[1..] + b;
      LookupAppend(a[1..], b, k);
    } else {
      assert a + b == b;
    }
  }

  lemma LookupOne(f: Field, k: string)
    ensures Lookup([f], k) == if f.0 == k then Some(f.1) else None
  {
    assert [f][1..] == [];
  }

  lemma LookupThree(fs: seq<Field>, k: string)
    requires |fs| == 3
    ensures Lookup(fs, k) == if fs[0].0 == k then Some(fs[0].1)
                             else if fs[1].0 == k then Some(fs[1].1)
                             else if fs[2].0 == k then Some(fs[2].1)
                             else None
  {
    assert fs == [fs[0]] + [fs[1]] + [fs[2]];
    LookupAppend([fs[0]] + [fs[1]], [fs[2]], k);
    LookupAppend([fs[0]], [fs[1]], k);
    LookupOne(fs[0], k);
    LookupOne(fs[1], k);
    LookupOne(fs[2], k);
  }

  /**
    The reply link an email gets, as the fields a mail client reads from it
    (`replyKey` names the threading field).
   */
  lemma MuaLinkReadsBack(e: EmailRecord, xlist: string, replyKey: string)
    requires PlainName(replyKey)
    requires '?' !in e.listRaw
    requires Shorten(ReplyText(e)).Some?
    ensures MuaLinkWith(Some(e), xlist, replyKey).Some?
    ensures ParseMailto(MuaLinkWith(Some(e), xlist, replyKey).value)
         == Some((ListAddress(e.listRaw),
                  [("subject", "RE: " + e.subject), (replyKey, JsText(e.messageId)), ("body", Shorten(ReplyText(e)).value)]))
  {
    var short := Shorten(ReplyText(e)).value;
    assert MuaLinkWith(Some(e), xlist, replyKey)
        == Some(ReplyLink(ListAddress(e.listRaw), "RE: " + e.subject, replyKey, JsText(e.messageId), short));
    ListAddressNoQuery(e.listRaw);
    ReplyLinkReadsBack(ListAddress(e.listRaw), "RE: " + e.subject, replyKey, JsText(e.messageId), short);
  }

  /** As written, a mail client reading the reply link finds no In-Reply-To field: the message id sits under `amp;In-Reply-To`. */
  lemma MuaLinkAsWrittenLosesInReplyTo(e: EmailRecord, xlist: string)
    requires '?' !in e.listRaw
    requires Shorten(ReplyText(e)).Some?
    ensures MuaLinkAsWritten(Some(e), xlist).Some?
    ensures ParseMailto(MuaLinkAsWritten(Some(e), xlist).value).Some?
    ensures var fields := ParseMailto(MuaLinkAsWritten(Some(e), xlist).value).value.1;
            Lookup(fields, InReplyTo) == None && Lookup(fields, InReplyToAsWritten) == Some(JsText(e.messageId))
  {
    MuaLinkReadsBack(e, xlist, InReplyToAsWritten);
    var fields := ParseMailto(MuaLinkAsWritten(Some(e), xlist).value).value.1;
    LookupThree(fields, InReplyTo);
    LookupThree(fields, InReplyToAsWritten);
  }

  /** With the plain separator the reader finds the subject, the message id under In-Reply-To, and the body. */
  lemma MuaLinkInReplyTo(e: EmailRecord, xlist: string)
    requires '?' !in e.listRaw
    requires Shorten(ReplyText(e)).Some?
    ensures MuaLink(Some(e), xlist).Some?
    ensures ParseMailto(MuaLink(Some(e), xlist).value).Some?
    ensures var fields := ParseMailto(MuaLink(Some(e), xlist).value).value.1;
            && Lookup(fields, "subject") == Some("RE: " + e.subject)
            && Lookup(fields, InReplyTo) == Some(JsText(e.messageId))
            && Lookup(fields, "body") == Shorten(ReplyText(e))
  {
    MuaLinkReadsBack(e, xlist, InReplyTo);
    var fields := ParseMailto(MuaLink(Some(e), xlist).value).value.1;
    LookupThree(fields, "subject");
    LookupThree(fields, InReplyTo);
    LookupThree(fields, "body");
  }

  /**
    Without an email the link is `mailto:{list}?subject=Subject+goes+here`; a
    `mailto:` reader keeps the plus signs (RFC 6068 percent-decodes only).
   */
  lemma MuaLinkNewThread(xlist: string)
    requires xlist != "" && '?' !in xlist
    ensures MuaLink(None, xlist) == Some("mailto:" + xlist + "?subject=Subject+goes+here")
    ensures ParseMailto(MuaLink(None, xlist).value) == Some((xlist, [("subject", "Subject+goes+here")]))
  {
    NewThreadLiterals();
    var link := "mailto:" + xlist + "?subject=Subject+goes+here";
    assert link == "mailto:" + xlist + ("?" + "subject" + "=" + "Subject+goes+here");
    assert link == "mailto:" + xlist + "?" + "subject" + "=" + "Subject+goes+here";
    ParseMailtoOne(xlist, "subject", "Subject+goes+here");
  }

  lemma NewThreadLiterals()
    ensures "?subject=Subject+goes+here" == "?" + "subject" + "=" + "Subject+goes+here"
    ensures PlainName("subject") && '%' !in "Subject+goes+here" && '&' !in "Subject+goes+here"
  {
    assert PlainName("subject");
    assert '%' !in "Subject+goes+here";
  }

  /** Which calls throw instead of returning a link. */
  lemma MuaLinkFails(email: Option<EmailRecord>, xlist: string)
    ensures MuaLink(email, xlist).None? <==>
              (email.None? && xlist == "") || (email.Some? && Shorten(ReplyText(email.value)).None?)
    ensures email.Some? && Bmp(ReplyText(email.value)) ==> MuaLink(email, xlist).Some?
  {
    if email.Some? && Bmp(ReplyText(email.value)) {
      Utf16PrefixBmp(ReplyText(email.value), MaxLinkBody);
    }
  }

  // ---------------------------------------------------------------------------
  // mua_headers: a JavaScript object used as an ordered map
  // ---------------------------------------------------------------------------

  /** Assignment to an object property: an existing name keeps its place, a new one goes last. */
  function Put(h: seq<Field>, k: string, v: string): (r: seq<Field>)
  {
    if h == [] then [(k, v)]
    else if h[0].0 == k then [(k, v)] + h[1..]
    else [h[0]] + Put(h[1..], k, v)
  }

  lemma {:induction false} PutLookup(h: seq<Field>, k: string, v: string, k': string)
    ensures Lookup(Put(h, k, v), k') == if k' == k then Some(v) else Lookup(h, k')
  {
    if h != [] && h[0].0 != k {
      PutLookup(h[1..], k, v, k');
      assert Put(h, k, v)[1..] == Put(h[1..], k, v);
    }
  }

  /** A name not yet present is appended. */
  lemma {:induction false} PutNew(h: seq<Field>, k: string, v: string)
    requires Lookup(h, k).None?
    ensures Put(h, k, v) == h + [(k, v)]
  {
    if h != [] {
      PutNew(h[1..], k, v);
      assert h == [h[0]] + h[1..];
    }
  }

  /** The header map `compose_email` leaves for an email (or none) and a list address. */
  function ReplyHeaders(email: Option<EmailRecord>, listname: string): seq<Field> {
    (match email
     case None => []
     case Some(e) =>
       (if HasMessageId(e) then [("in-reply-to", e.messageId.value), ("references", e.messageId.value)] else [])
       + [("eid", e.mid)])
    + [("to", listname)]
  }

  /** The value each header should have: threading only with a non-empty message id, `eid` only for replies, `to` always. */
  function ReplyHeaderValue(email: Option<EmailRecord>, listname: string, k: string): Option<string> {
    if k == "in-reply-to" || k == "references" then
      (if email.Some? && HasMessageId(email.value) then email.value.messageId else None)
    else if k == "eid" then (if email.Some? then Some(email.value.mid) else None)
    else if k == "to" then Some(listname)
    else None
  }

  /**
    The header map threads a reply to its parent exactly when the parent has a
    non-empty message id, names the parent for replies, always names the list,
    and has names a form reader takes literally.
   */
  lemma ReplyHeadersSpec(email: Option<EmailRecord>, listname: string)
    ensures var h := ReplyHeaders(email, listname);
            && (forall k | k in {"in-reply-to", "references", "eid", "to"} :: Lookup(h, k) == ReplyHeaderValue(email, listname, k))
            && (forall i :: 0 <= i < |h| ==> PlainName(h[i].0))
  {
    ReplyHeadersPlain(email, listname);
    forall k | k in {"in-reply-to", "references", "eid", "to"}
      ensures Lookup(ReplyHeaders(email, listname), k) == ReplyHeaderValue(email, listname, k)
    {
      ReplyHeadersLookup(email, listname, k);
    }
  }

  lemma ReplyHeadersPlain(email: Option<EmailRecord>, listname: string)
    ensures var h := ReplyHeaders(email, listname); forall i :: 0 <= i < |h| ==> PlainName(h[i].0)
  {
    var h := ReplyHeaders(email, listname);
    assert PlainName("in-reply-to") && PlainName("references") && PlainName("eid") && PlainName("to");
    forall i | 0 <= i < |h|
      ensures PlainName(h[i].0)
    {
      assert h[i].0 in {"in-reply-to", "references", "eid", "to"};
    }
  }

  lemma ReplyHeadersLookup(email: Option<EmailRecord>, listname: string, k: string)
    ensures Lookup(ReplyHeaders(email, listname), k) == ReplyHeaderValue(email, listname, k)
  {
    var h := ReplyHeaders(email, listname);
    var to := [("to", listname)];
    LookupOne(("to", listname), k);
    if email.Some? {
      var e := email.value;
      var eid := [("eid", e.mid)];
      LookupOne(("eid", e.mid), k);
      if HasMessageId(e) {
        var m := e.messageId.value;
        var ids := [("in-reply-to", m)] + [("references", m)];
        assert h == ids + eid + to;
        LookupAppend(ids + eid, to, k);
        LookupAppend(ids, eid, k);
        LookupAppend([("in-reply-to", m)], [("references", m)], k);
        LookupOne(("in-reply-to", m), k);
        LookupOne(("references", m), k);
      } else {
        assert h == eid + to;
        LookupAppend(eid, to, k);
      }
    } else {
      assert h == to;
    }
  }

  /** The fields `compose_send` posts: the headers, the subject, the body, then the sender chosen among the alternates. */
  function SendFields(headers: seq<Field>, subject: string, body: string, alt: Option<string>): seq<Field> {
    headers + [("subject", subject), ("body", body)] + (if alt.Some? then [("alt", alt.value)] else [])
  }

  /** The posted form body reads back, field by field, as the fields `compose_send` meant to send. */
  lemma SendFieldsReadBack(headers: seq<Field>, subject: string, body: string, alt: Option<string>)
    requires forall i :: 0 <= i < |headers| ==> PlainName(headers[i].0)
    ensures ParseQuery(Query(SendFields(headers, subject, body, alt)), true) == Some(SendFields(headers, subject, body, alt))
  {
    var fs := SendFields(headers, subject, body, alt);
    forall i | 0 <= i < |fs|
      ensures PlainName(fs[i].0)
    {
      if i >= |headers| {
        assert fs[i].0 in {"subject", "body", "alt"};
      }
    }
    ParseQueryOfQuery(fs, true);
  }

  // ---------------------------------------------------------------------------
  // The composer's page state
  // ---------------------------------------------------------------------------

  /** What the composer dialog shows. */
  datatype DialogContents =
    | ClientLinkOnly(href: string)
    | ComposeForm(senders: seq<string>, subject: string, body: string, clientLink: string)

  datatype Dialog = Dialog(title: string, contents: DialogContents)

  /** The email `full_emails[replyto]` names, if any. */
  function Picked(replyto: string, fullEmails: map<string, EmailRecord>): Option<EmailRecord> {
    if replyto != "" && replyto in fullEmails then Some(fullEmails[replyto]) else None
  }

  /** The sender addresses offered: the signed-in address, then the alternates. */
  function Senders(c: Credentials, alternates: Option<seq<string>>): seq<string> {
    [c.email] + (if alternates.Some? then alternates.value else [])
  }

  /** The compose form for a signed-in reader: a reply to `email`, or a new thread on the list. */
  function FormDialog(email: Option<EmailRecord>, listname: string, c: Credentials, alternates: Option<seq<string>>,
                      link: string): Dialog {
    if email.Some? then
      Dialog("Reply to email on " + listname + ":",
             ComposeForm(Senders(c, alternates), "Re: " + email.value.subject, ReplyText(email.value), link))
    else
      Dialog("Start a new thread on " + listname + ":", ComposeForm(Senders(c, alternates), "", "", link))
  }

  /** The logged-in half of `compose_email`: subject, quoted body, title and the sender list. */
  method BuildForm(email: Option<EmailRecord>, listname: string, c: Credentials, alternates: Option<seq<string>>,
                   link: string) returns (d: Dialog)
    ensures d == FormDialog(email, listname, c, alternates, link)
  {
    var emlSubject := "";
    var emlBody := "";
    var emlTitle := "Start a new thread on " + listname + ":";
    if email.Some? {
      emlSubject := "Re: " + email.value.subject;
      emlBody := ComposerRe(email.value);
      emlTitle := "Reply to email on " + listname + ":";
    }
    var senders := [c.email];
    if alternates.Some? {
      var alts := alternates.value;
      for z := 0 to |alts|
        invariant senders == [c.email] + alts[..z]
      {
        assert alts[..z + 1] == alts[..z] + [alts[z]];
        senders := senders + [alts[z]];
      }
      assert alts[..|alts|] == alts;
    } else {
      assert senders == [c.email] + [];
    }
    assert senders == Senders(c, alternates);
    d := Dialog(emlTitle, ComposeForm(senders, emlSubject, emlBody, link));
  }

  /** The header map of `compose_email`, filled one property at a time after the reset. */
  method FillHeaders(email: Option<EmailRecord>, listname: string) returns (h: seq<Field>)
    ensures h == ReplyHeaders(email, listname)
  {
    h := [];
    if email.Some? {
      var e := email.value;
      if HasMessageId(e) {
        PutNew(h, "in-reply-to", e.messageId.value);
        h := Put(h, "in-reply-to", e.messageId.value);
      }
      if HasMessageId(e) {
        PutLookup([], "in-reply-to", e.messageId.value, "references");
        PutNew(h, "references", e.messageId.value);
        h := Put(h, "references", e.messageId.value);
      }
      ReplyHeadersPrefix(e, h);
      PutNew(h, "eid", e.mid);
      h := Put(h, "eid", e.mid);
    }
    ReplyHeadersPrefixEid(email, h);
    PutNew(h, "to", listname);
    h := Put(h, "to", listname);
  }

  lemma ReplyHeadersPrefix(e: EmailRecord, h: seq<Field>)
    requires h == if HasMessageId(e) then [("in-reply-to", e.messageId.value), ("references", e.messageId.value)] else []
    ensures Lookup(h, "eid").None?
  {
    if HasMessageId(e) {
      assert h[1..] == [h[1]];
    }
  }

  lemma ReplyHeadersPrefixEid(email: Option<EmailRecord>, h: seq<Field>)
    requires email.None? ==> h == []
    requires email.Some? ==> h == ReplyHeaders(email, "")[..|ReplyHeaders(email, "")| - 1]
    ensures Lookup(h, "to").None?
  {
    if email.Some? {
      var e := email.value;
      if HasMessageId(e) {
        assert h == [("in-reply-to", e.messageId.value), ("references", e.messageId.value), ("eid", e.mid)];
        assert h[1..][1..] == [h[2]];
      } else {
        assert h == [("eid", e.mid)];
      }
    }
  }

  /** The loop of `compose_send` over the header map: `name=value` with the value percent-encoded, in order. */
  method EncodeHeaders(headers: seq<Field>) returns (of: seq<string>)
    ensures of == EncodeFields(headers)
  {
    of := [];
    for i := 0 to |headers|
      invariant of == EncodeFields(headers[..i])
    {
      assert headers[..i + 1] == headers[..i] + [headers[i]];
      EncodeFieldsAppend(headers[..i], [headers[i]]);
      of := of + [headers[i].0 + "=" + Encode(headers[i].1)];
    }
    assert headers[..|headers|] == headers;
  }

  lemma SendFieldsEncoded(headers: seq<Field>, subject: string, body: string, alt: Option<string>)
    ensures EncodeFields(SendFields(headers, subject, body, alt))
         == EncodeFields(headers) + ["subject=" + Encode(subject)] + ["body=" + Encode(body)]
            + (if alt.Some? then ["alt=" + Encode(alt.value)] else [])
  {
    var sb := [("subject", subject), ("body", body)];
    var a := if alt.Some? then [("alt", alt.value)] else [];
    var tail := if alt.Some? then ["alt=" + Encode(alt.value)] else [];
    calc {
      EncodeFields(SendFields(headers, subject, body, alt));
      EncodeFields(headers + sb + a);
    == { EncodeFieldsAppend(headers + sb, a); EncodeFieldsAppend(headers, sb); }
      EncodeFields(headers) + EncodeFields(sb) + EncodeFields(a);
    == { assert "subject" + "=" == "subject=" && "body" + "=" == "body=" && "alt" + "=" == "alt=";
         EncodeFieldsPieces(sb);
         EncodeFieldsPieces(a); }
      EncodeFields(headers) + (["subject=" + Encode(subject)] + ["body=" + Encode(body)]) + tail;
    }
  }

  /** Up to three fields encoded one by one. */
  lemma EncodeFieldsPieces(fs: seq<Field>)
    requires |fs| <= 2
    ensures |fs| == 0 ==> EncodeFields(fs) == []
    ensures |fs| == 1 ==> EncodeFields(fs) == [fs[0].0 + "=" + Encode(fs[0].1)]
    ensures |fs| == 2 ==> EncodeFields(fs) == [fs[0].0 + "=" + Encode(fs[0].1)] + [fs[1].0 + "=" + Encode(fs[1].1)]
  {
  }

  class Composer {
    var muaTrigger: string
    var muaList: Option<string>
    var muaMid: Option<string>
    var muaHeaders: seq<Field>
    /** The composer dialog, once opened, and whether it is on screen. */
    var dialog: Option<Dialog>
    var shown: bool
    /** Form bodies posted to `/api/compose.lua`, oldest first. */
    var posted: seq<string>

    constructor()
      ensures muaTrigger == "mailto:" && muaList == None && muaMid == None && muaHeaders == []
      ensures dialog == None && !shown && posted == []
    {
      muaTrigger := "mailto:";
      muaList := None;
      muaMid := None;
      muaHeaders := [];
      dialog := None;
      shown := false;
      posted := [];
    }

    /** `composer(title, contents)`: the dialog is created or refilled, then shown. */
    method Open(title: string, contents: DialogContents)
      modifies this
      ensures dialog == Some(Dialog(title, contents)) && shown
      ensures muaTrigger == old(muaTrigger) && muaList == old(muaList) && muaMid == old(muaMid)
      ensures muaHeaders == old(muaHeaders) && posted == old(posted)
    {
      dialog := Some(Dialog(title, contents));
      shown := true;
    }

    /**
      `compose_email(replyto, list)`.  `ok` is false where the code throws:
      the link cannot be built (no email and no list, or a URIError), or nobody
      is signed in and there is no email to reply to, where the form reads
      `login.credentials.email`.
     */
    method ComposeEmail(replyto: string, list: string, fullEmails: map<string, EmailRecord>, login: Option<Login>)
      returns (ok: bool)
      modifies this
      ensures var email := Picked(replyto, fullEmails);
              var link := MuaLink(email, if email.Some? then "" else list);
              var listname := if email.Some? then ListAddress(email.value.listRaw) else list;
              && posted == old(posted)
              && (link.None? ==> !ok && muaHeaders == [] && muaTrigger == old(muaTrigger)
                                 && muaList == old(muaList) && muaMid == old(muaMid)
                                 && dialog == old(dialog) && shown == old(shown))
              && (link.Some? ==>
                    && muaTrigger == link.value
                    && muaList == Some(listname)
                    && muaHeaders == ReplyHeaders(email, listname)
                    && muaMid == (if email.Some? then email.value.messageId else None)
                    && (ok <==> LoggedIn(login) || email.Some?)
                    && (!LoggedIn(login) && email.Some? ==>
                          dialog == Some(Dialog("Reply to thread:", ClientLinkOnly(link.value))) && shown)
                    && (!ok ==> dialog == old(dialog) && shown == old(shown))
                    && (LoggedIn(login) ==>
                          shown && dialog == Some(FormDialog(email, listname, login.value.credentials.value,
                                                             login.value.alternates, link.value))))
    {
      var email := Picked(replyto, fullEmails);
      var loggedIn := LoggedIn(login);
      var listname := list;
      muaHeaders := [];
      var link: Option<string>;
      if email.Some? {
        listname := ListAddress(email.value.listRaw);
        link := MuaLink(email, "");
      } else {
        link := MuaLink(None, listname);
      }
      if link.None? {
        return false;
      }
      muaTrigger := link.value;
      muaHeaders := FillHeaders(email, listname);
      muaList := Some(listname);
      muaMid := if email.Some? then email.value.messageId else None;

      if !loggedIn {
        if email.Some? {
          Open("Reply to thread:", ClientLinkOnly(muaTrigger));
          return true;
        }
        return false;
      }
      var form := BuildForm(email, listname, login.value.credentials.value, login.value.alternates, muaTrigger);
      Open(form.title, form.contents);
      return true;
    }

    /**
      `compose_send`: posts the header fields, the subject, the body and, when
      the reader has alternate addresses and the sender list is on the page,
      the chosen sender, then hides the dialog.
     */
    method ComposeSend(subject: string, body: string, altChoice: Option<string>, login: Option<Login>)
      modifies this
      ensures var alt := if login.Some? && login.value.alternates.Some? then altChoice else None;
              posted == old(posted) + [Query(SendFields(muaHeaders, subject, body, alt))]
      ensures !shown && dialog == old(dialog)
      ensures muaTrigger == old(muaTrigger) && muaList == old(muaList) && muaMid == old(muaMid)
      ensures muaHeaders == old(muaHeaders)
    {
      var of := EncodeHeaders(muaHeaders);
      of := of + ["subject=" + Encode(subject)];
      of := of + ["body=" + Encode(body)];
      var alt := if login.Some? && login.value.alternates.Some? then altChoice else None;
      if alt.Some? {
        of := of + ["alt=" + Encode(alt.value)];
      }
      SendFieldsEncoded(muaHeaders, subject, body, alt);
      assert of == EncodeFields(SendFields(muaHeaders, subject, body, alt));
      posted := posted + [Join(of, "&")];
      shown := false;
    }
  }
}
