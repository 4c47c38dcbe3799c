// The three JavaScript regular expressions the web client applies to a `From:`
// value, written out as scans:
//   s.replace(/\s*<.+?>/, '')    reply attribution line, lazy;
//   s.replace(/\s*<.+>/, '')     chatty author name, greedy;
//   s.match(/\s*<(.+@.+)>\s*/)   chatty author address, first group.
// `.` matches anything but a line terminator, `\s` is ECMAScript's white-space
// and line-terminator set, and `replace` with a non-global pattern rewrites only
// the leftmost match.
module JsRegex {
  import opened Common

  /** ECMAScript `\s`. */
  predicate IsJsSpace(c: char) {
    c == '\t' || c == '\n' || c == '\U{000B}' || c == '\U{000C}' || c == '\r' || c == ' '
    || c == '\U{00A0}' || c == '\U{1680}' || ('\U{2000}' <= c <= '\U{200A}')
    || c == '\U{2028}' || c == '\U{2029}' || c == '\U{202F}' || c == '\U{205F}' || c == '\U{3000}' || c == '\U{FEFF}'
  }

  /** The characters `.` does not match. */
  predicate IsLineTerminator(c: char) {
    c == '\n' || c == '\r' || c == '\U{2028}' || c == '\U{2029}'
  }

  /** How many white-space characters stand immediately before position `j`. */
  function SpacesBefore(s: string, j: nat): (n: nat)
    requires j <= |s|
    ensures n <= j
  {
    if j == 0 || !IsJsSpace(s[j - 1]) then 0 else SpacesBefore(s, j - 1) + 1
  }

  /** The end of the current line: the first line terminator at or after `k`, or `|s|`. */
  function LineEnd(s: string, k: nat): (e: nat)
    requires k <= |s|
    ensures k <= e <= |s|
    ensures forall i :: k <= i < e ==> !IsLineTerminator(s[i])
    ensures e < |s| ==> IsLineTerminator(s[e])
    decreases |s| - k
  {
    if k == |s| || IsLineTerminator(s[k]) then k else LineEnd(s, k + 1)
  }

  /** The first `>` in `s[k..e]`. */
  function FirstGt(s: string, k: nat, e: nat): (r: Option<nat>)
    requires k <= e <= |s|
    ensures r.Some? ==> k <= r.value < e && s[r.value] == '>'
    ensures r.Some? ==> forall i :: k <= i < r.value ==> s[i] != '>'
    ensures r.None? ==> forall i :: k <= i < e ==> s[i] != '>'
    decreases e - k
  {
    if k == e then None else if s[k] == '>' then Some(k) else FirstGt(s, k + 1, e)
  }

  /** The last `>` in `s[k..e]`. */
  function LastGt(s: string, k: nat, e: nat): (r: Option<nat>)
    requires k <= e <= |s|
    ensures r.Some? ==> k <= r.value < e && s[r.value] == '>'
    ensures r.Some? ==> forall i :: r.value < i < e ==> s[i] != '>'
    ensures r.None? ==> forall i :: k <= i < e ==> s[i] != '>'
    decreases e - k
  {
    if k == e then None else if s[e - 1] == '>' then Some(e - 1) else LastGt(s, k, e - 1)
  }

  /**
    Where `<.+?>` or `<.+>` matching at the `<` in position `j` ends: the `>` it
    stops at, at least two characters on and with no line terminator in between.
   */
  function AngleEnd(s: string, j: nat, greedy: bool): (r: Option<nat>)
    requires j < |s| && s[j] == '<'
    ensures r.Some? ==> j + 2 <= r.value < |s| && s[r.value] == '>'
    ensures r.Some? ==> forall i :: j < i < r.value ==> !IsLineTerminator(s[i])
  {
    if j + 2 > |s| then None
    else
      var e := LineEnd(s, j + 1);
      if e < j + 2 then None
      else if greedy then LastGt(s, j + 2, e) else FirstGt(s, j + 2, e)
  }

  /** The first `<` at or after `from` at which a match can end; lazy and greedy patterns agree on it. */
  function FirstAngle(s: string, from: nat): (r: Option<nat>)
    requires from <= |s|
    ensures r.Some? ==> from <= r.value < |s| && s[r.value] == '<' && AngleEnd(s, r.value, false).Some?
    decreases |s| - from
  {
    if from == |s| then None
    else if s[from] == '<' && AngleEnd(s, from, false).Some? then Some(from)
    else FirstAngle(s, from + 1)
  }

  /** The leftmost match of `\s*<.+?>` (lazy) or `\s*<.+>` (greedy) removed. */
  function RemoveAngled(s: string, greedy: bool): (r: string)
    ensures |r| <= |s|
  {
    match FirstAngle(s, 0)
    case None => s
    case Some(j) =>
      AngleEndAgree(s, j);
      var k := AngleEnd(s, j, greedy).value;
      s[..j - SpacesBefore(s, j)] + s[k + 1..]
  }

  lemma AngleEndAgree(s: string, j: nat)
    requires j < |s| && s[j] == '<'
    ensures AngleEnd(s, j, true).Some? <==> AngleEnd(s, j, false).Some?
  {
    if j + 2 <= |s| {
      var e := LineEnd(s, j + 1);
      if e >= j + 2 {
        if FirstGt(s, j + 2, e).Some? {
          assert LastGt(s, j + 2, e).Some?;
        }
      }
    }
  }

  /** Some `@` stands in `s[lo..hi]`. */
  predicate InnerAt(s: string, lo: int, hi: int) {
    exists p :: lo <= p < hi && 0 <= p < |s| && s[p] == '@'
  }

  /** The first group of `\s*<(.+@.+)>\s*`: the text inside the first `<…>` holding an inner `@`. */
  function AngleAddress(s: string, from: nat): (r: Option<string>)
    requires from <= |s|
    ensures r.Some? ==> '@' in r.value && |r.value| >= 3
    decreases |s| - from
  {
    if from == |s| then None
    else if s[from] == '<' && AngleEnd(s, from, true).Some? && InnerAt(s, from + 2, AngleEnd(s, from, true).value - 1) then
      var k := AngleEnd(s, from, true).value;
      var p :| from + 2 <= p < k - 1 && p < |s| && s[p] == '@';
      assert s[from + 1..k][p - from - 1] == '@';
      Some(s[from + 1..k])
    else AngleAddress(s, from + 1)
  }

  /** A display name is kept whole when it ends in a visible character and has no `<` of its own. */
  predicate DisplayName(name: string) {
    '<' !in name && (name == [] || !IsJsSpace(name[|name| - 1]))
  }

  /** An address in angle brackets that both removal patterns match in full. */
  predicate BracketedAddress(addr: string) {
    |addr| >= 1 && '>' !in addr && '<' !in addr && forall i :: 0 <= i < |addr| ==> !IsLineTerminator(addr[i])
  }

  lemma SpacesBeforeRun(s: string, name: string, pad: string)
    requires s == name + pad + "<" && DisplayName(name) && forall i :: 0 <= i < |pad| ==> IsJsSpace(pad[i])
    ensures SpacesBefore(s, |name| + |pad|) == |pad|
    decreases |pad|
  {
    if pad != [] {
      var s' := name + pad[..|pad| - 1] + "<";
      assert s[..|name| + |pad| - 1] == s'[..|name| + |pad| - 1];
      SpacesBeforePrefix(s, s', |name| + |pad| - 1);
      SpacesBeforeRun(s', name, pad[..|pad| - 1]);
    } else if name != [] {
      assert s[|name| - 1] == name[|name| - 1];
    }
  }

  lemma {:induction false} SpacesBeforePrefix(s: string, t: string, j: nat)
    requires j <= |s| && j <= |t| && s[..j] == t[..j]
    ensures SpacesBefore(s, j) == SpacesBefore(t, j)
  {
    if j > 0 {
      assert s[j - 1] == s[..j][j - 1] == t[..j][j - 1] == t[j - 1];
      assert s[..j - 1] == t[..j - 1];
      SpacesBeforePrefix(s, t, j - 1);
    }
  }

  /** Where the parts of `name + pad + "<" + addr + ">"` stand. */
  lemma NameAddrLayout(name: string, pad: string, addr: string)
    requires DisplayName(name) && forall i :: 0 <= i < |pad| ==> IsJsSpace(pad[i])
    ensures var s := name + pad + "<" + addr + ">"; var j := |name| + |pad|;
      |s| == j + |addr| + 2 && s[..|name|] == name && s[..j + 1] == name + pad + "<"
      && s[j..] == "<" + addr + ">" && s[j + 1..|s| - 1] == addr
      && (forall i :: 0 <= i < j ==> s[i] != '<')
  {
    var s := name + pad + "<" + addr + ">";
    var j := |name| + |pad|;
    forall i | 0 <= i < j
      ensures s[i] != '<'
    {
      if i < |name| { assert s[i] == name[i]; } else { assert s[i] == pad[i - |name|]; }
    }
    assert s[..j + 1] == name + pad + "<";
    assert s[j..] == "<" + addr + ">";
  }

  lemma RemoveAngledAt(s: string, name: string, pad: string, addr: string, greedy: bool)
    requires DisplayName(name) && BracketedAddress(addr)
    requires forall i :: 0 <= i < |pad| ==> IsJsSpace(pad[i])
    requires |s| == |name| + |pad| + |addr| + 2 && s[..|name|] == name
    requires s[..|name| + |pad| + 1] == name + pad + "<" && s[|name| + |pad|..] == "<" + addr + ">"
    requires forall i :: 0 <= i < |name| + |pad| ==> s[i] != '<'
    ensures RemoveAngled(s, greedy) == name
  {
    var j := |name| + |pad|;
    assert s[j] == s[j..][0] == '<';
    AngleEndOfAddr(s, j, addr);
    NoAngleBefore(s, 0, j);
    SpacesBeforePrefix(s, name + pad + "<", j);
    SpacesBeforeRun(name + pad + "<", name, pad);
  }

  /** `Name <addr>` loses the spaces and the bracketed address, and keeps the name, under either pattern. */
  lemma RemoveAngledOfNameAddr(name: string, pad: string, addr: string, greedy: bool)
    requires DisplayName(name) && BracketedAddress(addr)
    requires forall i :: 0 <= i < |pad| ==> IsJsSpace(pad[i])
    ensures RemoveAngled(name + pad + "<" + addr + ">", greedy) == name
  {
    NameAddrLayout(name, pad, addr);
    RemoveAngledAt(name + pad + "<" + addr + ">", name, pad, addr, greedy);
  }

  lemma AngleEndOfAddr(s: string, j: nat, addr: string)
    requires BracketedAddress(addr) && j + |addr| + 2 == |s| && s[j..] == "<" + addr + ">"
    ensures AngleEnd(s, j, false) == Some(|s| - 1) && AngleEnd(s, j, true) == Some(|s| - 1)
  {
    assert s[j] == '<';
    forall i | j + 1 <= i < |s|
      ensures !IsLineTerminator(s[i])
    {
      if i < |s| - 1 { assert s[i] == addr[i - j - 1]; } else { assert s[i] == '>'; }
    }
    LineEndNone(s, j + 1);
    FirstGtLast(s, j + 2, |s|);
  }

  lemma {:induction false} LineEndNone(s: string, k: nat)
    requires k <= |s| && forall i :: k <= i < |s| ==> !IsLineTerminator(s[i])
    ensures LineEnd(s, k) == |s|
    decreases |s| - k
  {
    if k < |s| {
      LineEndNone(s, k + 1);
    }
  }

  lemma {:induction false} FirstGtLast(s: string, k: nat, e: nat)
    requires k < e <= |s| && s[e - 1] == '>' && forall i :: k <= i < e - 1 ==> s[i] != '>'
    ensures FirstGt(s, k, e) == Some(e - 1) && LastGt(s, k, e) == Some(e - 1)
    decreases e - k
  {
    if k < e - 1 {
      FirstGtLast(s, k + 1, e);
    }
  }

  lemma {:induction false} NoAngleBefore(s: string, from: nat, j: nat)
    requires from <= j < |s| && s[j] == '<' && AngleEnd(s, j, false).Some?
    requires forall i :: from <= i < j ==> s[i] != '<'
    ensures FirstAngle(s, from) == Some(j)
    decreases j - from
  {
    if from < j {
      NoAngleBefore(s, from + 1, j);
    }
  }

  /** `Name <user@host>` yields `user@host` as the captured address. */
  lemma AngleAddressOfNameAddr(name: string, pad: string, addr: string)
    requires DisplayName(name) && BracketedAddress(addr) && InnerAt(addr, 1, |addr| - 1)
    requires forall i :: 0 <= i < |pad| ==> IsJsSpace(pad[i])
    ensures AngleAddress(name + pad + "<" + addr + ">", 0) == Some(addr)
  {
    NameAddrLayout(name, pad, addr);
    AngleAddressAt(name + pad + "<" + addr + ">", |name| + |pad|, addr);
  }

  lemma AngleAddressAt(s: string, j: nat, addr: string)
    requires BracketedAddress(addr) && InnerAt(addr, 1, |addr| - 1)
    requires |s| == j + |addr| + 2 && s[j..] == "<" + addr + ">" && s[j + 1..|s| - 1] == addr
    requires forall i :: 0 <= i < j ==> s[i] != '<'
    ensures AngleAddress(s, 0) == Some(addr)
  {
    assert s[j] == s[j..][0] == '<';
    AngleEndOfAddr(s, j, addr);
    var p :| 1 <= p < |addr| - 1 && 0 <= p < |addr| && addr[p] == '@';
    assert s[j + 1 + p] == addr[p];
    NoAddressBefore(s, 0, j);
  }

  lemma {:induction false} NoAddressBefore(s: string, from: nat, j: nat)
    requires from <= j < |s| && s[j] == '<' && AngleEnd(s, j, true).Some?
    requires InnerAt(s, j + 2, AngleEnd(s, j, true).value - 1)
    requires forall i :: from <= i < j ==> s[i] != '<'
    ensures AngleAddress(s, from) == Some(s[j + 1..AngleEnd(s, j, true).value])
    decreases j - from
  {
    if from < j {
      NoAddressBefore(s, from + 1, j);
    }
  }

  /** Without a `<` there is nothing to remove and no address to capture. */
  lemma {:induction false} NoAngleNoMatch(s: string, from: nat)
    requires from <= |s| && '<' !in s
    ensures FirstAngle(s, from) == None && AngleAddress(s, from) == None
    decreases |s| - from
  {
    if from < |s| {
      NoAngleNoMatch(s, from + 1);
    }
  }
}
