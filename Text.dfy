/**
  String operations of Python's str and JavaScript's String that the core uses:
  find/indexOf, replace of the first or of every occurrence, strip, split, join,
  and the decimal rendering of a non-negative integer.
 */
module Text {
  import opened Common

  /** Position of the first occurrence of `c` (str.find, String.indexOf). */
  function IndexOf(s: string, c: char): (r: Option<nat>)
    ensures r.None? <==> c !in s
    ensures r.Some? ==> r.value < |s| && s[r.value] == c && c !in s[..r.value]
  {
    if s == [] then None
    else if s[0] == c then Some(0)
    else match IndexOf(s[1..], c)
      case None => None
      case Some(i) =>
        assert s[..i + 1] == [s[0]] + s[1..][..i];
        Some(i + 1)
  }

  lemma IndexOfAt(s: string, c: char, k: nat)
    requires k < |s| && s[k] == c && c !in s[..k]
    ensures IndexOf(s, c) == Some(k)
  {
  }

  /** `s.replace(a, b)` in JavaScript with a one-character string pattern: only the first `a` is replaced. */
  function ReplaceFirst(s: string, a: char, b: char): (r: string)
    ensures |r| == |s|
    ensures a !in s ==> r == s
    ensures a in s ==> r == s[..IndexOf(s, a).value] + [b] + s[IndexOf(s, a).value + 1..]
  {
    if s == [] then []
    else if s[0] == a then [b] + s[1..]
    else
      var r := [s[0]] + ReplaceFirst(s[1..], a, b);
      assert a in s ==> a in s[1..];
      r
  }

  /** Replacing the first `a` by `b` leaves every other character where it was. */
  lemma ReplaceFirstPointwise(s: string, a: char, b: char, i: int)
    requires 0 <= i < |s|
    ensures ReplaceFirst(s, a, b)[i] == s[i] || ReplaceFirst(s, a, b)[i] == b
  {
  }

  predicate IsAngle(c: char) {
    c == '<' || c == '>'
  }

  /** `s.replace(/[<>]/g, '')`: every angle bracket removed, everything else kept in order. */
  function RemoveAngles(s: string): (r: string)
    ensures |r| <= |s|
    ensures forall i :: 0 <= i < |r| ==> !IsAngle(r[i])
    ensures forall c :: !IsAngle(c) ==> multiset(r)[c] == multiset(s)[c]
    ensures (forall i :: 0 <= i < |s| ==> !IsAngle(s[i])) ==> r == s
  {
    if s == [] then []
    else
      assert s == [s[0]] + s[1..];
      assert multiset(s) == multiset([s[0]]) + multiset(s[1..]);
      var rest := RemoveAngles(s[1..]);
      if IsAngle(s[0]) then rest
      else
        assert multiset([s[0]] + rest) == multiset([s[0]]) + multiset(rest);
        [s[0]] + rest
  }

  /** Python's `s.replace(c, "")`: every occurrence of `c` removed; RemoveCharSpec states it. */
  function RemoveChar(s: string, c: char): (r: string)
    ensures |r| <= |s|
  {
    if s == [] then []
    else if s[0] == c then RemoveChar(s[1..], c) else [s[0]] + RemoveChar(s[1..], c)
  }

  /** No `c` is left, every other character keeps its count, and a string without `c` is unchanged. */
  lemma {:induction false} RemoveCharSpec(s: string, c: char)
    ensures c !in RemoveChar(s, c)
    ensures forall d :: d != c ==> multiset(RemoveChar(s, c))[d] == multiset(s)[d]
    ensures c !in s ==> RemoveChar(s, c) == s
  {
    if s != [] {
      RemoveCharSpec(s[1..], c);
      assert s == [s[0]] + s[1..];
    }
  }

  /** Removing angle brackets does not change which dot comes first, so the two orders of the list-name rewrite agree. */
  lemma {:induction false} RemoveAnglesReplaceFirstCommute(s: string, b: char)
    requires !IsAngle(b)
    ensures RemoveAngles(ReplaceFirst(s, '.', b)) == ReplaceFirst(RemoveAngles(s), '.', b)
  {
    if s != [] {
      var c, t := s[0], s[1..];
      assert s == [c] + t;
      if c == '.' {
        calc {
          RemoveAngles(ReplaceFirst(s, '.', b));
        == { ReplaceFirstCons(c, t, '.', b); }
          RemoveAngles([b] + t);
        == { RemoveAnglesCons(b, t); }
          [b] + RemoveAngles(t);
        == { ReplaceFirstCons(c, RemoveAngles(t), '.', b); }
          ReplaceFirst([c] + RemoveAngles(t), '.', b);
        == { RemoveAnglesCons(c, t); }
          ReplaceFirst(RemoveAngles(s), '.', b);
        }
      } else if IsAngle(c) {
        calc {
          RemoveAngles(ReplaceFirst(s, '.', b));
        == { ReplaceFirstCons(c, t, '.', b); }
          RemoveAngles([c] + ReplaceFirst(t, '.', b));
        == { RemoveAnglesCons(c, ReplaceFirst(t, '.', b)); }
          RemoveAngles(ReplaceFirst(t, '.', b));
        == { RemoveAnglesReplaceFirstCommute(t, b); }
          ReplaceFirst(RemoveAngles(t), '.', b);
        == { RemoveAnglesCons(c, t); }
          ReplaceFirst(RemoveAngles(s), '.', b);
        }
      } else {
        calc {
          RemoveAngles(ReplaceFirst(s, '.', b));
        == { ReplaceFirstCons(c, t, '.', b); }
          RemoveAngles([c] + ReplaceFirst(t, '.', b));
        == { RemoveAnglesCons(c, ReplaceFirst(t, '.', b)); }
          [c] + RemoveAngles(ReplaceFirst(t, '.', b));
        == { RemoveAnglesReplaceFirstCommute(t, b); }
          [c] + ReplaceFirst(RemoveAngles(t), '.', b);
        == { ReplaceFirstCons(c, RemoveAngles(t), '.', b); }
          ReplaceFirst([c] + RemoveAngles(t), '.', b);
        == { RemoveAnglesCons(c, t); }
          ReplaceFirst(RemoveAngles(s), '.', b);
        }
      }
    }
  }

  lemma RemoveAnglesCons(c: char, t: string)
    ensures RemoveAngles([c] + t) == if IsAngle(c) then RemoveAngles(t) else [c] + RemoveAngles(t)
  {
    assert ([c] + t)[1..] == t;
  }

  lemma ReplaceFirstCons(c: char, t: string, a: char, b: char)
    ensures ReplaceFirst([c] + t, a, b) == if c == a then [b] + t else [c] + ReplaceFirst(t, a, b)
  {
    assert ([c] + t)[1..] == t;
  }

  /** Python's `s.lstrip("<>")`. */
  function TrimAnglesStart(s: string): (r: string)
    ensures |r| <= |s| && r == s[|s| - |r|..]
    ensures r == [] || !IsAngle(r[0])
    ensures forall i :: 0 <= i < |s| - |r| ==> IsAngle(s[i])
  {
    if s != [] && IsAngle(s[0]) then TrimAnglesStart(s[1..]) else s
  }

  /** Python's `s.rstrip("<>")`. */
  function TrimAnglesEnd(s: string): (r: string)
    ensures |r| <= |s| && r == s[..|r|]
    ensures r == [] || !IsAngle(r[|r| - 1])
    ensures forall i :: |r| <= i < |s| ==> IsAngle(s[i])
  {
    if s != [] && IsAngle(s[|s| - 1]) then TrimAnglesEnd(s[..|s| - 1]) else s
  }

  /** Python's `s.strip("<>")`: angle brackets removed from both ends only. */
  function TrimAngles(s: string): (r: string)
    ensures |r| <= |s|
    ensures r == [] || (!IsAngle(r[0]) && !IsAngle(r[|r| - 1]))
  {
    TrimAnglesEnd(TrimAnglesStart(s))
  }

  lemma TrimAnglesOfBracketed(x: string)
    requires x == [] || (!IsAngle(x[0]) && !IsAngle(x[|x| - 1]))
    ensures TrimAngles("<" + x + ">") == x
  {
    var s := "<" + x + ">";
    var u := x + ">";
    assert s[1..] == u;
    if x == [] {
      assert u[1..] == [];
      assert TrimAnglesStart(s) == [];
    } else {
      assert u[0] == x[0];
      assert TrimAnglesStart(s) == u;
      assert u[..|u| - 1] == x;
      assert TrimAnglesEnd(u) == TrimAnglesEnd(x) == x;
    }
  }

  /** `sep.join(parts)` / `parts.join(sep)`. */
  function Join(parts: seq<string>, sep: string): (r: string)
  {
    if |parts| == 0 then ""
    else if |parts| == 1 then parts[0]
    else parts[0] + sep + Join(parts[1..], sep)
  }

  lemma JoinThree(a: string, b: string, c: string, sep: string)
    ensures Join([a, b, c], sep) == a + sep + (b + sep + c)
  {
    var p := [a, b, c];
    assert p[1..] == [b, c];
    assert [b, c][1..] == [c];
    assert Join([c], sep) == c;
    assert Join([b, c], sep) == b + sep + c;
    assert Join(p, sep) == a + sep + Join(p[1..], sep);
  }

  /** `s.split(c)` with a one-character separator and no limit. */
  function Split(s: string, c: char): (r: seq<string>)
    ensures |r| >= 1
    ensures forall i :: 0 <= i < |r| ==> c !in r[i]
    decreases |s|
  {
    match IndexOf(s, c)
    case None => [s]
    case Some(i) => [s[..i]] + Split(s[i + 1..], c)
  }

  /** Splitting and joining again on the same character gives back the string. */
  lemma {:induction false} JoinSplit(s: string, c: char)
    ensures Join(Split(s, c), [c]) == s
    decreases |s|
  {
    match IndexOf(s, c)
    case None =>
    case Some(i) =>
      var rest := Split(s[i + 1..], c);
      JoinSplit(s[i + 1..], c);
      assert Split(s, c) == [s[..i]] + rest;
      assert ([s[..i]] + rest)[1..] == rest;
      assert Join(Split(s, c), [c]) == s[..i] + [c] + Join(rest, [c]);
      assert s == s[..i] + [c] + s[i + 1..];
  }

  /** Joining pieces that do not contain the separator and splitting again gives back the pieces. */
  lemma {:induction false} SplitJoin(parts: seq<string>, c: char)
    requires |parts| >= 1
    requires forall i :: 0 <= i < |parts| ==> c !in parts[i]
    ensures Split(Join(parts, [c]), c) == parts
  {
    if |parts| > 1 {
      var rest := Join(parts[1..], [c]);
      calc {
        Split(Join(parts, [c]), c);
        Split(parts[0] + [c] + rest, c);
      == { SplitAppend(parts[0], c, rest); }
        Split(parts[0], c) + Split(rest, c);
      == { SplitJoin(parts[1..], c); }
        [parts[0]] + parts[1..];
        parts;
      }
    }
  }

  /** Splitting a concatenation at a separator between the halves splits each half. */
  lemma {:induction false} SplitAppend(a: string, c: char, b: string)
    ensures Split(a + [c] + b, c) == Split(a, c) + Split(b, c)
    decreases |a|, 1
  {
    match IndexOf(a, c)
    case None =>
      var s := a + [c] + b;
      assert s[..|a|] == a;
      SplitAt(s, c, |a|);
      assert s[|a| + 1..] == b;
    case Some(i) =>
      SplitAppendAt(a, c, b, i);
  }

  lemma {:induction false} SplitAppendAt(a: string, c: char, b: string, i: nat)
    requires i < |a| && a[i] == c && c !in a[..i]
    ensures Split(a + [c] + b, c) == Split(a, c) + Split(b, c)
    decreases |a|, 0
  {
    var t := a[i + 1..];
    calc {
      Split(a + [c] + b, c);
    == { SplitAppendHead(a, c, b, i); }
      [a[..i]] + Split(t + [c] + b, c);
    == { SplitAppend(t, c, b); }
      [a[..i]] + (Split(t, c) + Split(b, c));
    == { assert forall x: seq<string>, y: seq<string>, z: seq<string> :: x + (y + z) == (x + y) + z; }
      ([a[..i]] + Split(t, c)) + Split(b, c);
    == { SplitAt(a, c, i); }
      Split(a, c) + Split(b, c);
    }
  }

  /** The first piece of `a + [c] + b` ends at the first separator inside `a`. */
  lemma SplitAppendHead(a: string, c: char, b: string, i: nat)
    requires i < |a| && a[i] == c && c !in a[..i]
    ensures Split(a + [c] + b, c) == [a[..i]] + Split(a[i + 1..] + [c] + b, c)
  {
    var s := a + [c] + b;
    assert s[..i] == a[..i];
    assert s[i + 1..] == a[i + 1..] + [c] + b;
    SplitAt(s, c, i);
  }

  lemma SplitAt(s: string, c: char, i: nat)
    requires i < |s| && s[i] == c && c !in s[..i]
    ensures Split(s, c) == [s[..i]] + Split(s[i + 1..], c)
  {
    IndexOfAt(s, c, i);
  }

  /** Removes one trailing carriage return. */
  function ChopCR(s: string): string {
    if |s| > 0 && s[|s| - 1] == '\r' then s[..|s| - 1] else s
  }

  /**
    `s.split(/\r?\n/)` in JavaScript: the leftmost match of the pattern is a line feed,
    together with the carriage return just before it when there is one.
   */
  function Lines(s: string): (r: seq<string>)
    ensures |r| >= 1
    ensures forall i :: 0 <= i < |r| ==> '\n' !in r[i]
    decreases |s|
  {
    match IndexOf(s, '\n')
    case None => [s]
    case Some(i) => [ChopCR(s[..i])] + Lines(s[i + 1..])
  }

  /** Splitting on `\r?\n` yields as many lines as splitting on the line feed alone. */
  lemma {:induction false} LinesCount(s: string)
    ensures |Lines(s)| == |Split(s, '\n')|
    ensures '\r' !in s ==> Lines(s) == Split(s, '\n')
    decreases |s|
  {
    match IndexOf(s, '\n')
    case None =>
    case Some(i) =>
      LinesCount(s[i + 1..]);
      if '\r' !in s {
        assert '\r' !in s[..i];
        assert '\r' !in s[i + 1..];
      }
  }

  predicate IsDigit(c: char) {
    '0' <= c <= '9'
  }

  function DigitChar(d: nat): (c: char)
    requires d < 10
    ensures IsDigit(c) && c as int - '0' as int == d
  {
    (d + '0' as int) as char
  }

  /** The decimal digits of a non-negative integer, as String(n) and str(n) write them. */
  function NatToString(n: nat): (r: string)
    ensures |r| >= 1
    ensures forall i :: 0 <= i < |r| ==> IsDigit(r[i])
    ensures |r| > 1 ==> r[0] != '0'
  {
    if n < 10 then [DigitChar(n)] else NatToString(n / 10) + [DigitChar(n % 10)]
  }

  /** The value of a string of decimal digits. */
  function DigitsValue(s: string): nat
    requires forall i :: 0 <= i < |s| ==> IsDigit(s[i])
  {
    if s == [] then 0
    else
      assert IsDigit(s[|s| - 1]);
      DigitsValue(s[..|s| - 1]) * 10 + (s[|s| - 1] as int - '0' as int)
  }

  /** Reading back the decimal rendering of `n` gives `n`. */
  lemma {:induction false} NatToStringRoundTrip(n: nat)
    ensures DigitsValue(NatToString(n)) == n
  {
    if n >= 10 {
      NatToStringRoundTrip(n / 10);
      var s := NatToString(n);
      assert s[..|s| - 1] == NatToString(n / 10);
    }
  }
}
