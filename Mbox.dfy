/**
  Server-side thread construction (server/plugins/mbox.py): the thread-subject
  normalisation, `find_root_subject`, `construct_threads`, `extract_name` and the
  list-name rewrite inside `is_public`.

  Python dicts that `construct_threads` shares by reference (a node is at the same
  time an element of `threads`, a child of its parent and a value of `hashdict`)
  are modelled as an arena: `nodes[k]` is the node built for the k-th email in
  epoch order, and `threads`, `children` and `hashdict` hold arena indices.
 */
module Mbox {
  import opened Common
  import opened Text
  import opened EpochSort

  /** An email document as `construct_threads` reads it; absent keys are `None`. */
  datatype Email = Email(
    mid: string,
    messageId: Option<string>,
    inReplyTo: Option<string>,
    subject: string,
    from: Option<string>,
    listRaw: string,
    epoch: int)

  /** The `xemail` dict built for each email; `children` are arena indices. */
  datatype Node = Node(
    tid: string,
    subject: string,
    tsubject: string,
    epoch: int,
    nest: nat,
    children: seq<nat>)

  function EpochOf(e: Email): int { e.epoch }
  function FromOf(e: Email): Option<string> { e.from }
  function MidOf(e: Email): string { e.mid }

  // ---------------------------------------------------------------------------
  // PYPONY_RE_PREFIX = ^([a-zA-Z]+:\s*)+  and the thread subject
  // ---------------------------------------------------------------------------

  predicate IsAsciiLetter(c: char) {
    ('a' <= c <= 'z') || ('A' <= c <= 'Z')
  }

  /** `\s` of a Python str pattern: the characters for which str.isspace() holds. */
  predicate IsPySpace(c: char) {
    var n := c as int;
    (0x09 <= n <= 0x0D) || (0x1C <= n <= 0x20) || n == 0x85 || n == 0xA0 || n == 0x1680
    || (0x2000 <= n <= 0x200A) || n == 0x2028 || n == 0x2029 || n == 0x202F || n == 0x205F
    || n == 0x3000
  }

  /** Length of the longest prefix of ASCII letters. */
  function LetterRun(s: string): (n: nat)
    ensures n <= |s|
  {
    if s != [] && IsAsciiLetter(s[0]) then 1 + LetterRun(s[1..]) else 0
  }

  /** Length of the longest prefix of whitespace. */
  function SpaceRun(s: string): (n: nat)
    ensures n <= |s|
  {
    if s != [] && IsPySpace(s[0]) then 1 + SpaceRun(s[1..]) else 0
  }

  /** LetterRun is the length of the maximal run: `n` letters, then the end or a non-letter. */
  lemma {:induction false} LetterRunIs(x: string, n: nat)
    requires n <= |x| && forall i :: 0 <= i < n ==> IsAsciiLetter(x[i])
    requires n == |x| || !IsAsciiLetter(x[n])
    ensures LetterRun(x) == n
  {
    if n > 0 {
      LetterRunIs(x[1..], n - 1);
    }
  }

  /** SpaceRun is the length of the maximal run: `n` blanks, then the end or a non-blank. */
  lemma {:induction false} SpaceRunIs(x: string, n: nat)
    requires n <= |x| && forall i :: 0 <= i < n ==> IsPySpace(x[i])
    requires n == |x| || !IsPySpace(x[n])
    ensures SpaceRun(x) == n
  {
    if n > 0 {
      SpaceRunIs(x[1..], n - 1);
    }
  }

  /**
    Length of one repetition of the group `[a-zA-Z]+:\s*` at the start of `s`,
    or 0 when the group does not match there.  Both inner repetitions are greedy
    and what follows each of them cannot be swallowed by it, so the match never
    needs to backtrack.
   */
  function PrefixGroup(s: string): (g: nat)
    ensures g <= |s|
  {
    var n := LetterRun(s);
    if 0 < n < |s| && s[n] == ':' then n + 1 + SpaceRun(s[n + 1..]) else 0
  }

  /** How many characters `PYPONY_RE_PREFIX` matches at the start of `s`. */
  function RePrefixLength(s: string): (k: nat)
    ensures k <= |s|
    decreases |s|
  {
    var g := PrefixGroup(s);
    if g == 0 then 0 else g + RePrefixLength(s[g..])
  }

  /** The regex consumes whole groups: no further group starts where it stops. */
  lemma {:induction false} RePrefixLengthMaximal(s: string)
    ensures PrefixGroup(s[RePrefixLength(s)..]) == 0
    decreases |s|
  {
    var g := PrefixGroup(s);
    if g != 0 {
      var k := RePrefixLength(s[g..]);
      assert RePrefixLength(s) == g + k;
      RePrefixLengthMaximal(s[g..]);
      assert s[g..][k..] == s[g + k..];
    }
  }

  /** `PYPONY_RE_PREFIX.sub("", s)`: every leading `Word:` prefix, with the blanks after it, removed. */
  function StripRePrefix(s: string): (r: string)
    ensures |r| <= |s|
  {
    s[RePrefixLength(s)..]
  }

  /** What is left is a suffix of the input that starts with no `Word:` prefix. */
  lemma StripRePrefixSpec(s: string)
    ensures StripRePrefix(s) == s[|s| - |StripRePrefix(s)|..]
    ensures PrefixGroup(StripRePrefix(s)) == 0
  {
    RePrefixLengthMaximal(s);
  }

  /** Stripping is idempotent. */
  lemma StripRePrefixIdempotent(s: string)
    ensures StripRePrefix(StripRePrefix(s)) == StripRePrefix(s)
  {
    var r := StripRePrefix(s);
    StripRePrefixSpec(s);
    assert RePrefixLength(r) == 0;
  }

  /** Stripping removes the group found at the start and goes on after it. */
  lemma StripOnce(x: string, g: nat)
    requires PrefixGroup(x) == g
    ensures StripRePrefix(x) == StripRePrefix(x[g..])
  {
    if g > 0 {
      var k := RePrefixLength(x[g..]);
      assert x[g..][k..] == x[g + k..];
    }
  }

  /** A reply prefix such as "Re: " or "AW:" in front of a subject does not change the stripped subject. */
  lemma {:induction false} StripRePrefixWord(w: string, ws: string, s: string)
    requires |w| > 0 && forall i :: 0 <= i < |w| ==> IsAsciiLetter(w[i])
    requires forall i :: 0 <= i < |ws| ==> IsPySpace(ws[i])
    requires s == [] || !IsPySpace(s[0])
    ensures StripRePrefix(w + ":" + ws + s) == StripRePrefix(s)
  {
    var x := w + ":" + ws + s;
    var n, m := |w|, |ws|;
    assert PrefixGroup(x) == n + 1 + m by {
      assert forall i :: 0 <= i < n ==> x[i] == w[i];
      assert x[n] == ':';
      LetterRunIs(x, n);
      var rest := x[n + 1..];
      assert rest == ws + s;
      assert forall i :: 0 <= i < m ==> rest[i] == ws[i];
      SpaceRunIs(rest, m);
    }
    StripOnce(x, n + 1 + m);
    assert x[n + 1 + m..] == s;
  }

  /** `subject.replace("\n", "")`. */
  function CropSubject(subject: string): (r: string)
    ensures |r| <= |subject|
  {
    RemoveChar(subject, '\n')
  }

  /** The thread subject: `PYPONY_RE_PREFIX.sub("", subject) + "_" + list_raw` on the cropped subject. */
  function ThreadSubject(subject: string, listRaw: string): (r: string)
    ensures |r| > |listRaw|
  {
    StripRePrefix(CropSubject(subject)) + "_" + listRaw
  }

  /** The thread subject has no line feed from the subject and ends with the list it was posted to. */
  lemma ThreadSubjectSpec(subject: string, listRaw: string)
    ensures '\n' !in CropSubject(subject)
    ensures var r := ThreadSubject(subject, listRaw); r[|r| - |listRaw| - 1..] == "_" + listRaw
  {
    RemoveCharSpec(subject, '\n');
  }

  /** "Re: x" and "x" on the same list share a thread subject. */
  lemma ThreadSubjectOfReply(w: string, ws: string, s: string, listRaw: string)
    requires |w| > 0 && forall i :: 0 <= i < |w| ==> IsAsciiLetter(w[i])
    requires forall i :: 0 <= i < |ws| ==> IsPySpace(ws[i])
    requires s == [] || !IsPySpace(s[0])
    requires '\n' !in ws && '\n' !in s
    ensures ThreadSubject(w + ":" + ws + s, listRaw) == ThreadSubject(s, listRaw)
  {
    var x := w + ":" + ws + s;
    assert CropSubject(x) == x by {
      assert '\n' !in w by {
        forall i | 0 <= i < |w|
          ensures w[i] != '\n'
        {
          assert IsAsciiLetter(w[i]);
        }
      }
      assert '\n' !in x;
      RemoveCharSpec(x, '\n');
    }
    assert CropSubject(s) == s by {
      RemoveCharSpec(s, '\n');
    }
    StripRePrefixWord(w, ws, s);
  }

  // ---------------------------------------------------------------------------
  // find_root_subject
  // ---------------------------------------------------------------------------

  predicate ValidIndices(threads: seq<nat>, hashdict: map<string, nat>, nodes: seq<Node>) {
    (forall i :: 0 <= i < |threads| ==> threads[i] < |nodes|)
    && (forall m :: m in hashdict ==> hashdict[m] < |nodes|)
  }

  /** The position in `threads` of the first node whose thread subject is `rs`. */
  function FirstWithTSubject(threads: seq<nat>, nodes: seq<Node>, rs: string): (r: Option<nat>)
    requires forall i :: 0 <= i < |threads| ==> threads[i] < |nodes|
    ensures r.Some? ==> r.value < |threads|
  {
    if threads == [] then None
    else if nodes[threads[0]].tsubject == rs then Some(0)
    else match FirstWithTSubject(threads[1..], nodes, rs)
      case None => None
      case Some(i) => Some(i + 1)
  }

  /** FirstWithTSubject finds the first match, and finds none only when there is none. */
  lemma {:induction false} FirstWithTSubjectSpec(threads: seq<nat>, nodes: seq<Node>, rs: string)
    requires forall i :: 0 <= i < |threads| ==> threads[i] < |nodes|
    ensures var r := FirstWithTSubject(threads, nodes, rs);
      (r.None? <==> forall i :: 0 <= i < |threads| ==> nodes[threads[i]].tsubject != rs)
      && (r.Some? ==>
            nodes[threads[r.value]].tsubject == rs && (forall i :: 0 <= i < r.value ==> nodes[threads[i]].tsubject != rs))
  {
    if threads != [] && nodes[threads[0]].tsubject != rs {
      FirstWithTSubjectSpec(threads[1..], nodes, rs);
      var t := threads[1..];
      assert forall i :: 1 <= i < |threads| ==> threads[i] == t[i - 1];
    }
  }

  /** The in-reply-to shortcut applies: a non-empty in-reply-to known to `hashdict` whose node has the same subject. */
  predicate ReplyHit(hashdict: map<string, nat>, nodes: seq<Node>, e: Email)
    requires forall m :: m in hashdict ==> hashdict[m] < |nodes|
  {
    e.inReplyTo.Some? && e.inReplyTo.value != "" && e.inReplyTo.value in hashdict
    && nodes[hashdict[e.inReplyTo.value]].subject == CropSubject(e.subject)
  }

  /** The subject `find_root_subject` searches the roots for: `osubject` when given and non-empty. */
  function SearchSubject(e: Email, osubject: Option<string>): string {
    if osubject.Some? && osubject.value != "" then osubject.value
    else ThreadSubject(e.subject, e.listRaw)
  }

  /** What `find_root_subject` returns; FindRootSpec states what that is. */
  function FindRoot(threads: seq<nat>, hashdict: map<string, nat>, nodes: seq<Node>, e: Email, osubject: Option<string>): (r: Option<nat>)
    requires ValidIndices(threads, hashdict, nodes)
    ensures r.Some? ==> r.value < |nodes|
  {
    if ReplyHit(hashdict, nodes, e) then Some(hashdict[e.inReplyTo.value])
    else match FirstWithTSubject(threads, nodes, SearchSubject(e, osubject))
      case None => None
      case Some(i) => Some(threads[i])
  }

  /**
    A node reached through `hashdict` has the email's own subject; any other
    result is a root in `threads` with the search subject, and the earliest such
    root; None only when neither exists.
   */
  lemma FindRootSpec(threads: seq<nat>, hashdict: map<string, nat>, nodes: seq<Node>, e: Email, osubject: Option<string>)
    requires ValidIndices(threads, hashdict, nodes)
    ensures var r := FindRoot(threads, hashdict, nodes, e, osubject);
      (ReplyHit(hashdict, nodes, e) ==> r == Some(hashdict[e.inReplyTo.value]))
      && (r.Some? && !ReplyHit(hashdict, nodes, e) ==>
        exists i :: 0 <= i < |threads| && threads[i] == r.value
          && nodes[r.value].tsubject == SearchSubject(e, osubject)
          && forall j :: 0 <= j < i ==> nodes[threads[j]].tsubject != SearchSubject(e, osubject))
      && (r.None? <==> (!ReplyHit(hashdict, nodes, e)
        && forall i :: 0 <= i < |threads| ==> nodes[threads[i]].tsubject != SearchSubject(e, osubject)))
  {
    FirstWithTSubjectSpec(threads, nodes, SearchSubject(e, osubject));
  }

  /** `find_root_subject`: the dictionary lookup, then a search loop over the roots that returns early. */
  method FindRootSubject(threads: seq<nat>, hashdict: map<string, nat>, nodes: seq<Node>, e: Email, osubject: Option<string>)
    returns (r: Option<nat>)
    requires ValidIndices(threads, hashdict, nodes)
    ensures r == FindRoot(threads, hashdict, nodes, e, osubject)
  {
    var subject := CropSubject(e.subject);
    if e.inReplyTo.Some? && e.inReplyTo.value != "" && e.inReplyTo.value in hashdict {
      if nodes[hashdict[e.inReplyTo.value]].subject == subject {
        return Some(hashdict[e.inReplyTo.value]);
      }
    }
    var rsubject := if osubject.Some? && osubject.value != "" then osubject.value
                    else StripRePrefix(subject) + "_" + e.listRaw;
    assert rsubject == SearchSubject(e, osubject);
    assert !ReplyHit(hashdict, nodes, e);
    ghost var first := FirstWithTSubject(threads, nodes, rsubject);
    FirstWithTSubjectSpec(threads, nodes, rsubject);
    var i := 0;
    while i < |threads|
      invariant 0 <= i <= |threads|
      invariant forall j :: 0 <= j < i ==> nodes[threads[j]].tsubject != rsubject
    {
      if nodes[threads[i]].tsubject == rsubject {
        assert first == Some(i);
        return Some(threads[i]);
      }
      i := i + 1;
    }
    assert first.None?;
    return None;
  }

  /** FindRoot looks only at the subjects and thread subjects of the nodes. */
  lemma {:induction false} FirstWithTSubjectCongruent(threads: seq<nat>, n1: seq<Node>, n2: seq<Node>, rs: string)
    requires |n1| == |n2|
    requires forall i :: 0 <= i < |threads| ==> threads[i] < |n1|
    requires forall i :: 0 <= i < |n1| ==> n1[i].tsubject == n2[i].tsubject
    ensures FirstWithTSubject(threads, n1, rs) == FirstWithTSubject(threads, n2, rs)
  {
    if threads != [] {
      FirstWithTSubjectCongruent(threads[1..], n1, n2, rs);
    }
  }

  lemma FindRootCongruent(threads: seq<nat>, hashdict: map<string, nat>, n1: seq<Node>, n2: seq<Node>, e: Email, osubject: Option<string>)
    requires |n1| == |n2|
    requires ValidIndices(threads, hashdict, n1)
    requires forall i :: 0 <= i < |n1| ==> n1[i].subject == n2[i].subject && n1[i].tsubject == n2[i].tsubject
    ensures FindRoot(threads, hashdict, n1, e, osubject) == FindRoot(threads, hashdict, n2, e, osubject)
  {
    FirstWithTSubjectCongruent(threads, n1, n2, SearchSubject(e, osubject));
  }

  // ---------------------------------------------------------------------------
  // construct_threads: the specification as folds over the processed prefix
  // ---------------------------------------------------------------------------

  /** The `hashdict` key of an email: its message-id, or "??" without one. */
  function HashKey(e: Email): string {
    e.messageId.GetOr("??")
  }

  /** `hashdict` after processing `es`: each key maps to the LAST email carrying it. */
  function HashDict(es: seq<Email>): (h: map<string, nat>)
    ensures |h| <= |es|
  {
    if es == [] then map[]
    else HashDict(es[..|es| - 1])[HashKey(es[|es| - 1]) := |es| - 1]
  }

  /** Every processed email's key is present, and each key points at an email carrying it. */
  lemma {:induction false} HashDictSpec(es: seq<Email>)
    ensures forall j :: 0 <= j < |es| ==> HashKey(es[j]) in HashDict(es)
    ensures forall m :: m in HashDict(es) ==> HashDict(es)[m] < |es| && HashKey(es[HashDict(es)[m]]) == m
  {
    if es != [] {
      var p := es[..|es| - 1];
      HashDictSpec(p);
      var hp := HashDict(p);
      var h := HashDict(es);
      assert h == hp[HashKey(es[|es| - 1]) := |es| - 1];
      forall j | 0 <= j < |es|
        ensures HashKey(es[j]) in h
      {
        if j < |p| {
          assert es[j] == p[j];
        }
      }
      forall m | m in h
        ensures h[m] < |es| && HashKey(es[h[m]]) == m
      {
        if m != HashKey(es[|es| - 1]) {
          assert m in hp && h[m] == hp[m];
          assert es[hp[m]] == p[hp[m]];
        }
      }
    }
  }

  /** A message-id maps to the latest email carrying it: no later email has the same key. */
  lemma {:induction false} HashDictLatest(es: seq<Email>, m: string, j: nat)
    requires m in HashDict(es) && HashDict(es)[m] < j < |es|
    ensures HashKey(es[j]) != m
  {
    var p := es[..|es| - 1];
    if j < |es| - 1 {
      assert HashKey(es[|es| - 1]) != m;
      assert es[j] == p[j];
      HashDictLatest(p, m, j);
    }
  }

  /** The positions of `ps` holding `x`, in increasing order. */
  function IndicesOf(ps: seq<Option<nat>>, x: Option<nat>): (r: seq<nat>)
    ensures |r| <= |ps|
  {
    if ps == [] then []
    else IndicesOf(ps[..|ps| - 1], x) + (if ps[|ps| - 1] == x then [|ps| - 1] else [])
  }

  /** `IndicesOf` lists exactly the positions holding `x`, each once, in increasing order. */
  lemma {:induction false} IndicesOfSpec(ps: seq<Option<nat>>, x: Option<nat>)
    ensures forall i :: 0 <= i < |IndicesOf(ps, x)| ==> IndicesOf(ps, x)[i] < |ps| && ps[IndicesOf(ps, x)[i]] == x
    ensures forall k :: 0 <= k < |ps| && ps[k] == x ==> k in IndicesOf(ps, x)
    ensures forall i, j :: 0 <= i < j < |IndicesOf(ps, x)| ==> IndicesOf(ps, x)[i] < IndicesOf(ps, x)[j]
  {
    if ps != [] {
      var p := ps[..|ps| - 1];
      IndicesOfSpec(p, x);
      assert forall k :: 0 <= k < |p| ==> ps[k] == p[k];
    }
  }

  lemma IndicesMember(ps: seq<Option<nat>>, x: Option<nat>, k: nat)
    requires k < |ps|
    ensures k in IndicesOf(ps, x) <==> ps[k] == x
  {
    IndicesOfSpec(ps, x);
    var r := IndicesOf(ps, x);
    if k in r {
      var i :| 0 <= i < |r| && r[i] == k;
    }
  }

  lemma {:induction false} IndicesSnoc(ps: seq<Option<nat>>, y: Option<nat>, x: Option<nat>)
    ensures IndicesOf(ps + [y], x) == IndicesOf(ps, x) + (if y == x then [|ps|] else [])
  {
    assert (ps + [y])[..|ps|] == ps;
  }

  lemma {:induction false} IndicesNone(ps: seq<Option<nat>>, x: Option<nat>)
    requires forall i :: 0 <= i < |ps| ==> ps[i] != x
    ensures IndicesOf(ps, x) == []
  {
    if ps != [] {
      IndicesNone(ps[..|ps| - 1], x);
    }
  }

  /** Indices of the roots (emails without a parent), in processing order. */
  function Roots(ps: seq<Option<nat>>): seq<nat> {
    IndicesOf(ps, None)
  }

  /** Indices of the children of node `p`, in processing order. */
  function ChildrenOf(ps: seq<Option<nat>>, p: nat): seq<nat> {
    IndicesOf(ps, Some(p))
  }

  /** The node `construct_threads` builds for an email, before depth and children are known. */
  function Skeleton(es: seq<Email>): (ns: seq<Node>)
    ensures |ns| == |es|
    ensures forall i :: 0 <= i < |es| ==>
      ns[i].subject == CropSubject(es[i].subject) && ns[i].tsubject == ThreadSubject(es[i].subject, es[i].listRaw)
  {
    seq(|es|, i requires 0 <= i < |es| =>
      Node(es[i].mid, CropSubject(es[i].subject), ThreadSubject(es[i].subject, es[i].listRaw), es[i].epoch, 1, []))
  }

  /** The parent `construct_threads` picks for `e` after processing `prefix`, whose parents are `ps`. */
  function Choose(prefix: seq<Email>, ps: seq<Option<nat>>, e: Email): (r: Option<nat>)
    requires |ps| == |prefix|
    ensures r.Some? ==> r.value < |prefix|
  {
    IndicesOfSpec(ps, None);
    HashDictSpec(prefix);
    FindRoot(Roots(ps), HashDict(prefix), Skeleton(prefix), e, Some(ThreadSubject(e.subject, e.listRaw)))
  }

  /** The parent of every email, in processing order; a parent is always an earlier email. */
  function ParentsOf(es: seq<Email>): (ps: seq<Option<nat>>)
    ensures |ps| == |es|
    ensures forall k :: 0 <= k < |ps| && ps[k].Some? ==> ps[k].value < k
  {
    if es == [] then []
    else
      var prefix := es[..|es| - 1];
      var p := ParentsOf(prefix);
      p + [Choose(prefix, p, es[|es| - 1])]
  }

  predicate ParentsEarlier(ps: seq<Option<nat>>) {
    forall k :: 0 <= k < |ps| && ps[k].Some? ==> ps[k].value < k
  }

  /** Depth in the forest: 1 for a root, one more than the parent otherwise. */
  function Nest(ps: seq<Option<nat>>, k: nat): (n: nat)
    requires ParentsEarlier(ps) && k < |ps|
    ensures n >= 1 && n <= k + 1
    decreases k
  {
    if ps[k].None? then 1 else Nest(ps, ps[k].value) + 1
  }

  lemma {:induction false} NestPrefix(ps: seq<Option<nat>>, x: Option<nat>, k: nat)
    requires ParentsEarlier(ps + [x]) && k < |ps|
    ensures ParentsEarlier(ps) && Nest(ps + [x], k) == Nest(ps, k)
    decreases k
  {
    assert forall j :: 0 <= j < |ps| ==> (ps + [x])[j] == ps[j];
    if ps[k].Some? {
      NestPrefix(ps, x, ps[k].value);
    }
  }

  lemma RootsSnoc(ps: seq<Option<nat>>, x: Option<nat>)
    ensures Roots(ps + [x]) == Roots(ps) + (if x.None? then [|ps|] else [])
  {
    IndicesSnoc(ps, x, None);
  }

  lemma ChildrenSnoc(ps: seq<Option<nat>>, x: Option<nat>, p: nat)
    ensures ChildrenOf(ps + [x], p) == ChildrenOf(ps, p) + (if x == Some(p) then [|ps|] else [])
  {
    IndicesSnoc(ps, x, Some(p));
  }

  /**
    Every email is placed exactly once: it is a root exactly when it is nobody's
    child, it is the child of at most one node, and that node was processed earlier.
   */
  lemma ExactlyOnce(ps: seq<Option<nat>>, k: nat)
    requires ParentsEarlier(ps) && k < |ps|
    ensures k in Roots(ps) <==> forall p: nat :: k !in ChildrenOf(ps, p)
    ensures forall p: nat, q: nat :: k in ChildrenOf(ps, p) && k in ChildrenOf(ps, q) ==> p == q
    ensures forall p: nat :: k in ChildrenOf(ps, p) ==> p < k
  {
    IndicesMember(ps, None, k);
    forall q: nat ensures k in ChildrenOf(ps, q) <==> ps[k] == Some(q) {
      IndicesMember(ps, Some(q), k);
    }
  }

  /** How many of the emails were sent by `a`. */
  function CountFrom(es: seq<Email>, a: Option<string>): (n: nat)
    ensures n <= |es|
  {
    if es == [] then 0
    else CountFrom(es[..|es| - 1], a) + (if es[|es| - 1].from == a then 1 else 0)
  }

  /** The author tally `construct_threads` returns: each sender with the number of emails it sent. */
  ghost predicate TallyOf(authors: map<Option<string>, nat>, es: seq<Email>) {
    forall a :: (a in authors <==> CountFrom(es, a) > 0) && (a in authors ==> authors[a] == CountFrom(es, a))
  }

  lemma {:induction false} CountFromAppend(x: seq<Email>, y: seq<Email>, a: Option<string>)
    ensures CountFrom(x + y, a) == CountFrom(x, a) + CountFrom(y, a)
    decreases |y|
  {
    if y == [] {
      assert x + y == x;
    } else {
      assert (x + y)[..|x + y| - 1] == x + y[..|y| - 1];
      CountFromAppend(x, y[..|y| - 1], a);
    }
  }

  lemma {:induction false} CountFromInsert(s: seq<Email>, x: Email, a: Option<string>)
    ensures CountFrom(Insert(s, x, EpochOf), a) == CountFrom(s, a) + CountFrom([x], a)
  {
    if s == [] {
    } else if EpochOf(x) < EpochOf(s[0]) {
      CountFromAppend([x], s, a);
    } else {
      CountFromInsert(s[1..], x, a);
      CountFromAppend([s[0]], Insert(s[1..], x, EpochOf), a);
      CountFromAppend([s[0]], s[1..], a);
      assert [s[0]] + s[1..] == s;
    }
  }

  /** Sorting by epoch changes nobody's email count, so the tally does not depend on the input order. */
  lemma {:induction false} CountFromSortBy(s: seq<Email>, a: Option<string>)
    ensures CountFrom(SortBy(s, EpochOf), a) == CountFrom(s, a)
  {
    if s != [] {
      var p := s[..|s| - 1];
      CountFromSortBy(p, a);
      CountFromInsert(SortBy(p, EpochOf), s[|s| - 1], a);
      assert CountFrom([s[|s| - 1]], a) == CountFrom([], a) + (if s[|s| - 1].from == a then 1 else 0);
    }
  }

  // ---------------------------------------------------------------------------
  // construct_threads
  // ---------------------------------------------------------------------------

  /** The node for the k-th email in processing order, given all the parents. */
  predicate NodeFor(n: Node, e: Email, ps: seq<Option<nat>>, k: nat)
    requires ParentsEarlier(ps) && k < |ps|
  {
    n == Node(e.mid, CropSubject(e.subject), ThreadSubject(e.subject, e.listRaw), e.epoch, Nest(ps, k), ChildrenOf(ps, k))
  }

  lemma SkeletonAgrees(nodes: seq<Node>, es: seq<Email>, k: nat, ps: seq<Option<nat>>)
    requires ParentsEarlier(ps) && |nodes| == |ps| == k <= |es|
    requires forall j :: 0 <= j < k ==> NodeFor(nodes[j], es[j], ps, j)
    ensures |Skeleton(es[..k])| == |nodes|
    ensures forall j :: 0 <= j < k ==>
      nodes[j].subject == Skeleton(es[..k])[j].subject && nodes[j].tsubject == Skeleton(es[..k])[j].tsubject
  {
    forall j | 0 <= j < k
      ensures nodes[j].subject == Skeleton(es[..k])[j].subject && nodes[j].tsubject == Skeleton(es[..k])[j].tsubject
    {
      assert es[..k][j] == es[j];
    }
  }

  lemma {:induction false} NoChildrenYet(ps: seq<Option<nat>>)
    requires ParentsEarlier(ps) && |ps| > 0
    ensures ChildrenOf(ps, |ps| - 1) == []
  {
    IndicesNone(ps, Some(|ps| - 1));
  }

  /** A node built before the step keeps its depth, and gains the new email as a child when it is the parent. */
  lemma NodeStepOld(n: Node, e: Email, ps: seq<Option<nat>>, x: Option<nat>, j: nat)
    requires ParentsEarlier(ps) && ParentsEarlier(ps + [x]) && j < |ps|
    requires NodeFor(n, e, ps, j)
    ensures NodeFor(if x == Some(j) then n.(children := n.children + [|ps|]) else n, e, ps + [x], j)
  {
    NestPrefix(ps, x, j);
    ChildrenSnoc(ps, x, j);
  }

  /** The node built in the step: depth 1 at a root, the parent's depth plus one below it, no children yet. */
  lemma NodeStepNew(parentNest: nat, e: Email, ps: seq<Option<nat>>, x: Option<nat>)
    requires ParentsEarlier(ps) && ParentsEarlier(ps + [x])
    requires x.Some? ==> x.value < |ps| && Nest(ps, x.value) == parentNest
    ensures NodeFor(Fresh(e).(nest := if x.None? then 1 else parentNest + 1), e, ps + [x], |ps|)
  {
    NoChildrenYet(ps + [x]);
    if x.Some? {
      NestPrefix(ps, x, x.value);
    }
  }

  /** The node `construct_threads` builds for `e` before it knows the parent. */
  function Fresh(e: Email): Node {
    Node(e.mid, CropSubject(e.subject), ThreadSubject(e.subject, e.listRaw), e.epoch, 1, [])
  }

  /** The nodes built before the step stay as specified; the parent gains the new email as its last child. */
  lemma OldNodesStep(es: seq<Email>, k: nat, ps: seq<Option<nat>>, x: Option<nat>, nodes: seq<Node>, nodes': seq<Node>)
    requires k < |es| && |nodes| == |ps| == k && |nodes'| == k + 1
    requires ParentsEarlier(ps) && ParentsEarlier(ps + [x])
    requires forall j :: 0 <= j < k ==> NodeFor(nodes[j], es[j], ps, j)
    requires forall j :: 0 <= j < k ==>
      nodes'[j] == if x == Some(j) then nodes[j].(children := nodes[j].children + [k]) else nodes[j]
    ensures forall j :: 0 <= j < k ==> NodeFor(nodes'[j], es[j], ps + [x], j)
  {
    forall j | 0 <= j < k
      ensures NodeFor(nodes'[j], es[j], ps + [x], j)
    {
      NodeStepOld(nodes[j], es[j], ps, x, j);
    }
  }

  lemma ArenaValid(es: seq<Email>, k: nat, ps: seq<Option<nat>>, threads: seq<nat>, hashdict: map<string, nat>, nodes: seq<Node>)
    requires k <= |es| && |nodes| == |ps| == k && threads == Roots(ps) && hashdict == HashDict(es[..k])
    ensures ValidIndices(threads, hashdict, nodes)
  {
    IndicesOfSpec(ps, None);
    HashDictSpec(es[..k]);
  }

  lemma PrefixOfLonger<T>(s: seq<T>, k: nat)
    requires k < |s|
    ensures s[..k + 1][..k] == s[..k]
  {
  }

  /** On the arena, `find_root_subject` sees what the specification's skeleton shows. */
  lemma FindRootOnArena(es: seq<Email>, k: nat, ps: seq<Option<nat>>, threads: seq<nat>, hashdict: map<string, nat>,
                        nodes: seq<Node>)
    requires k < |es| && |nodes| == |ps| == k && ParentsEarlier(ps)
    requires threads == Roots(ps) && hashdict == HashDict(es[..k])
    requires forall j :: 0 <= j < k ==> NodeFor(nodes[j], es[j], ps, j)
    ensures ValidIndices(threads, hashdict, nodes)
    ensures FindRoot(threads, hashdict, nodes, es[k], Some(ThreadSubject(es[k].subject, es[k].listRaw)))
         == Choose(es[..k], ps, es[k])
  {
    ArenaValid(es, k, ps, threads, hashdict, nodes);
    SkeletonAgrees(nodes, es, k, ps);
    FindRootCongruent(threads, hashdict, nodes, Skeleton(es[..k]), es[k], Some(ThreadSubject(es[k].subject, es[k].listRaw)));
  }

  lemma ParentsSnoc(es: seq<Email>, k: nat)
    requires k < |es|
    ensures ParentsOf(es[..k + 1]) == ParentsOf(es[..k]) + [Choose(es[..k], ParentsOf(es[..k]), es[k])]
  {
    PrefixOfLonger(es, k);
  }

  lemma PrefixOfAppend<T>(s: seq<T>, x: T)
    ensures (s + [x])[..|s|] == s && (s + [x])[|s|] == x
  {
  }

  /** The parent `find_root_subject` picks on the arena is the one the specification chooses. */
  lemma ParentOnArena(es: seq<Email>, k: nat, ps: seq<Option<nat>>, threads: seq<nat>, hashdict: map<string, nat>,
                      nodes: seq<Node>, parent: Option<nat>)
    requires k < |es| && |nodes| == |ps| == k
    requires ps == ParentsOf(es[..k]) && ParentsEarlier(ps)
    requires threads == Roots(ps) && hashdict == HashDict(es[..k])
    requires forall j :: 0 <= j < k ==> NodeFor(nodes[j], es[j], ps, j)
    requires ValidIndices(threads, hashdict, nodes)
    requires parent == FindRoot(threads, hashdict, nodes, es[k], Some(ThreadSubject(es[k].subject, es[k].listRaw)))
    ensures ps + [parent] == ParentsOf(es[..k + 1]) && ParentsEarlier(ps + [parent])
  {
    FindRootOnArena(es, k, ps, threads, hashdict, nodes);
    ParentsSnoc(es, k);
  }

  lemma HashDictSnoc(es: seq<Email>, k: nat)
    requires k < |es|
    ensures HashDict(es[..k + 1]) == HashDict(es[..k])[HashKey(es[k]) := k]
  {
    assert es[..k + 1][..k] == es[..k];
  }

  lemma TallyStep(authors: map<Option<string>, nat>, es: seq<Email>, k: nat)
    requires k < |es| && TallyOf(authors, es[..k])
    ensures TallyOf(authors[es[k].from := (if es[k].from in authors then authors[es[k].from] else 0) + 1], es[..k + 1])
  {
    assert es[..k + 1][..k] == es[..k];
  }

  /** Counting the authors of the sorted emails counts the authors of the emails. */
  lemma TallySorted(authors: map<Option<string>, nat>, es: seq<Email>)
    requires TallyOf(authors, SortBy(es, EpochOf))
    ensures TallyOf(authors, es)
  {
    forall a {
      CountFromSortBy(es, a);
    }
  }

  /** In the built nodes a root has depth 1 and a child its parent node's depth plus one. */
  lemma NodeNests(es: seq<Email>, ps: seq<Option<nat>>, nodes: seq<Node>)
    requires ParentsEarlier(ps) && |nodes| == |ps| == |es|
    requires forall k :: 0 <= k < |nodes| ==> NodeFor(nodes[k], es[k], ps, k)
    ensures forall k :: 0 <= k < |nodes| ==>
      nodes[k].nest == if ps[k].None? then 1 else nodes[ps[k].value].nest + 1
  {
    forall k | 0 <= k < |nodes|
      ensures nodes[k].nest == if ps[k].None? then 1 else nodes[ps[k].value].nest + 1
    {
      assert NodeFor(nodes[k], es[k], ps, k);
      if ps[k].Some? {
        assert NodeFor(nodes[ps[k].value], es[ps[k].value], ps, ps[k].value);
      }
    }
  }

  /** The nodes of emails processed in epoch order have non-decreasing epochs. */
  lemma EpochsSorted(es: seq<Email>, ps: seq<Option<nat>>, nodes: seq<Node>)
    requires SortedBy(es, EpochOf) && ParentsEarlier(ps) && |nodes| == |ps| == |es|
    requires forall k :: 0 <= k < |nodes| ==> NodeFor(nodes[k], es[k], ps, k)
    ensures forall i, j :: 0 <= i < j < |nodes| ==> nodes[i].epoch <= nodes[j].epoch
  {
    forall i, j | 0 <= i < j < |nodes|
      ensures nodes[i].epoch <= nodes[j].epoch
    {
      assert NodeFor(nodes[i], es[i], ps, i) && NodeFor(nodes[j], es[j], ps, j);
    }
  }

  /**
    Links the new node into the arena: as a new thread when it has no parent,
    otherwise one level below the parent and appended to the parent's children.
   */
  method Attach(threads: seq<nat>, nodes: seq<Node>, parent: Option<nat>, xemail: Node)
    returns (threads': seq<nat>, nodes': seq<Node>)
    requires parent.Some? ==> parent.value < |nodes|
    ensures threads' == threads + (if parent.None? then [|nodes|] else [])
    ensures |nodes'| == |nodes| + 1
    ensures nodes'[|nodes|] == if parent.None? then xemail else xemail.(nest := nodes[parent.value].nest + 1)
    ensures forall j :: 0 <= j < |nodes| ==>
      nodes'[j] == if parent == Some(j) then nodes[j].(children := nodes[j].children + [|nodes|]) else nodes[j]
  {
    if parent.None? {
      threads' := threads + [|nodes|];
      nodes' := nodes + [xemail];
    } else {
      var p := parent.value;
      var x := xemail.(nest := nodes[p].nest + 1);
      threads' := threads;
      nodes' := nodes[p := nodes[p].(children := nodes[p].children + [|nodes|])] + [x];
    }
  }

  /** One step of `construct_threads` keeps the arena equal to the specification on the longer prefix. */
  lemma ArenaStep(es: seq<Email>, k: nat, ps: seq<Option<nat>>, parent: Option<nat>,
                  threads: seq<nat>, nodes: seq<Node>, hashdict: map<string, nat>,
                  threads': seq<nat>, nodes': seq<Node>, hashdict': map<string, nat>)
    requires k < |es| && |nodes| == |ps| == k && ParentsEarlier(ps) && ParentsEarlier(ps + [parent])
    requires threads == Roots(ps) && hashdict == HashDict(es[..k])
    requires forall j :: 0 <= j < k ==> NodeFor(nodes[j], es[j], ps, j)
    requires parent.Some? ==> parent.value < k
    requires threads' == threads + (if parent.None? then [k] else [])
    requires |nodes'| == k + 1
    requires nodes'[k] == if parent.None? then Fresh(es[k]) else Fresh(es[k]).(nest := nodes[parent.value].nest + 1)
    requires forall j :: 0 <= j < k ==>
      nodes'[j] == if parent == Some(j) then nodes[j].(children := nodes[j].children + [k]) else nodes[j]
    requires hashdict' == hashdict[HashKey(es[k]) := k]
    ensures threads' == Roots(ps + [parent]) && hashdict' == HashDict(es[..k + 1])
    ensures forall j :: 0 <= j <= k ==> NodeFor(nodes'[j], es[j], ps + [parent], j)
  {
    RootsSnoc(ps, parent);
    HashDictSnoc(es, k);
    OldNodesStep(es, k, ps, parent, nodes, nodes');
    NodeStepNew(if parent.Some? then nodes[parent.value].nest else 1, es[k], ps, parent);
  }

  /**
    `construct_threads`: the emails are processed in stable epoch order; each is
    attached to the parent `find_root_subject` picks among the nodes built so far,
    or appended to `threads`; `hashdict` then maps its message-id to it.
   */
  method ConstructThreads(emails: seq<Email>) returns (threads: seq<nat>, nodes: seq<Node>, authors: map<Option<string>, nat>)
    ensures var s := SortBy(emails, EpochOf); var ps := ParentsOf(s);
      |nodes| == |emails| && threads == Roots(ps)
      && (forall k :: 0 <= k < |nodes| ==> NodeFor(nodes[k], s[k], ps, k))
    ensures var ps := ParentsOf(SortBy(emails, EpochOf));
      forall k :: 0 <= k < |nodes| ==> nodes[k].nest == if ps[k].None? then 1 else nodes[ps[k].value].nest + 1
    ensures forall i, j :: 0 <= i < j < |nodes| ==> nodes[i].epoch <= nodes[j].epoch
    ensures TallyOf(authors, emails)
  {
    var sorted := SortBy(emails, EpochOf);
    threads, nodes, authors := [], [], map[];
    var hashdict: map<string, nat> := map[];
    ghost var ps: seq<Option<nat>> := [];
    for k := 0 to |sorted|
      invariant |nodes| == |ps| == k
      invariant ps == ParentsOf(sorted[..k]) && ParentsEarlier(ps)
      invariant threads == Roots(ps)
      invariant hashdict == HashDict(sorted[..k])
      invariant forall j :: 0 <= j < k ==> NodeFor(nodes[j], sorted[j], ps, j)
      invariant TallyOf(authors, sorted[..k])
    {
      authors := CountAuthor(authors, sorted, k);
      threads, nodes, hashdict, ps := ThreadOne(sorted, k, threads, nodes, hashdict, ps);
    }
    assert sorted[..|sorted|] == sorted;
    TallySorted(authors, emails);
    EpochsSorted(sorted, ParentsOf(sorted), nodes);
    NodeNests(sorted, ParentsOf(sorted), nodes);
  }

  /** The author tally: a sender seen for the first time starts at zero, then gains one. */
  method CountAuthor(authors: map<Option<string>, nat>, sorted: seq<Email>, k: nat) returns (authors': map<Option<string>, nat>)
    requires k < |sorted| && TallyOf(authors, sorted[..k])
    ensures TallyOf(authors', sorted[..k + 1])
  {
    var author := sorted[k].from;
    TallyStep(authors, sorted, k);
    authors' := authors[author := (if author in authors then authors[author] else 0) + 1];
  }

  /** One pass of the loop of `construct_threads`: the `k`-th email in epoch order is attached and indexed. */
  method ThreadOne(sorted: seq<Email>, k: nat, threads: seq<nat>, nodes: seq<Node>, hashdict: map<string, nat>,
                   ghost ps: seq<Option<nat>>)
    returns (threads': seq<nat>, nodes': seq<Node>, hashdict': map<string, nat>, ghost ps': seq<Option<nat>>)
    requires k < |sorted|
    requires |nodes| == |ps| == k
    requires ps == ParentsOf(sorted[..k]) && ParentsEarlier(ps)
    requires threads == Roots(ps)
    requires hashdict == HashDict(sorted[..k])
    requires forall j :: 0 <= j < k ==> NodeFor(nodes[j], sorted[j], ps, j)
    ensures |nodes'| == |ps'| == k + 1
    ensures ps' == ParentsOf(sorted[..k + 1]) && ParentsEarlier(ps')
    ensures threads' == Roots(ps')
    ensures hashdict' == HashDict(sorted[..k + 1])
    ensures forall j :: 0 <= j < k + 1 ==> NodeFor(nodes'[j], sorted[j], ps', j)
  {
    var e := sorted[k];
    var subject := CropSubject(e.subject);
    var tsubject := StripRePrefix(subject) + "_" + e.listRaw;
    assert tsubject == ThreadSubject(e.subject, e.listRaw);
    ArenaValid(sorted, k, ps, threads, hashdict, nodes);
    var parent := FindRootSubject(threads, hashdict, nodes, e, Some(tsubject));
    ParentOnArena(sorted, k, ps, threads, hashdict, nodes, parent);
    var xemail := Node(e.mid, subject, tsubject, e.epoch, 1, []);
    threads', nodes' := Attach(threads, nodes, parent, xemail);
    hashdict' := hashdict[HashKey(e) := k];
    ArenaStep(sorted, k, ps, parent, threads, nodes, hashdict, threads', nodes', hashdict');
    ps' := ps + [parent];
  }


  // ---------------------------------------------------------------------------
  // extract_name
  // ---------------------------------------------------------------------------

  /**
    Where `(.+)>$` can end when the name part ends just before the `<` at `p`:
    `>` as the last character, or as the one before a final line feed (`$`
    matches there too), with no line feed inside the address.
   */
  function AddressEnd(addr: string, p: nat): (q: Option<nat>)
    requires p < |addr|
    ensures q.Some? ==> (p + 2 <= q.value < |addr| && addr[q.value] == '>'
      && '\n' !in addr[p + 1..q.value]
      && (q.value == |addr| - 1 || (q.value == |addr| - 2 && addr[|addr| - 1] == '\n')))
  {
    var n := |addr|;
    if n - 1 >= p + 2 && addr[n - 1] == '>' && '\n' !in addr[p + 1..n - 1] then Some(n - 1)
    else if n - 2 >= p + 2 && addr[n - 1] == '\n' && addr[n - 2] == '>' && '\n' !in addr[p + 1..n - 2] then Some(n - 2)
    else None
  }

  /** `re.match` succeeds: a non-empty name before the first `<`, and an address that AddressEnd accepts. */
  predicate NameAddrMatch(addr: string) {
    var p := IndexOf(addr, '<');
    p.Some? && p.value >= 1 && AddressEnd(addr, p.value).Some?
  }

  /**
    `extract_name`: `re.match(r"^([^<]+)\s*<(.+)>$", addr)` gives `[group(1), group(2)]`;
    otherwise the input with angle brackets stripped from both ends, twice.
    Group 1 is greedy and stops at the first `<` (so it keeps any blanks before it).
   */
  function ExtractName(addr: string): (r: (string, string))
    ensures NameAddrMatch(addr) ==> (r.0 != [] && '<' !in r.0 && r.1 != [] && '\n' !in r.1
      && (addr == r.0 + "<" + r.1 + ">" || addr == r.0 + "<" + r.1 + ">\n"))
    ensures !NameAddrMatch(addr) ==> r == (TrimAngles(addr), TrimAngles(addr))
  {
    if NameAddrMatch(addr) then
      var p := IndexOf(addr, '<').value;
      var q := AddressEnd(addr, p).value;
      assert addr == addr[..p] + "<" + addr[p + 1..q] + addr[q..];
      (addr[..p], addr[p + 1..q])
    else (TrimAngles(addr), TrimAngles(addr))
  }

  /** `"name <address>"` gives back its name (with the blank before `<`) and its address. */
  lemma ExtractNameOf(name: string, address: string)
    requires name != [] && '<' !in name
    requires address != [] && '\n' !in address
    ensures ExtractName(name + "<" + address + ">") == (name, address)
  {
    var addr := name + "<" + address + ">";
    var p := |name|;
    assert addr[..p] == name;
    IndexOfAt(addr, '<', p);
    assert addr[p + 1..|addr| - 1] == address;
    var q: nat := |addr| - 1;
    assert AddressEnd(addr, p) == Some(q);
  }

  /** An address without `<` is returned, stripped, as both name and address. */
  lemma ExtractNameBare(addr: string)
    requires '<' !in addr
    ensures ExtractName(addr) == (TrimAngles(addr), TrimAngles(addr))
  {
  }

  // ---------------------------------------------------------------------------
  // is_public
  // ---------------------------------------------------------------------------

  /**
    The list-name rewrite in `is_public`: a name without `@` is stripped of `<>` at
    both ends and split at its first `.` into `lname@ldomain`.  None stands for the
    ValueError the tuple unpacking raises when there is no `.` to split at.
   */
  function NormaliseListName(listname: string): (r: Option<string>)
    ensures '@' in listname ==> r == Some(listname)
    ensures '@' !in listname ==> (r.Some? <==> '.' in TrimAngles(listname))
    ensures '@' !in listname && r.Some? ==> r.value == ReplaceFirst(TrimAngles(listname), '.', '@')
  {
    if '@' in listname then Some(listname)
    else
      var t := TrimAngles(listname);
      match IndexOf(t, '.')
      case None => None
      case Some(i) => Some(t[..i] + "@" + t[i + 1..])
  }

  /**
    `is_public`: a list is public when its normalised name is known and not marked
    private; an unknown list is not public.  `lists` maps a list name to its
    `private` flag.
   */
  function IsPublic(listname: string, lists: map<string, bool>): (r: Option<bool>)
    ensures r.None? <==> NormaliseListName(listname).None?
    ensures r == Some(true) <==> (NormaliseListName(listname).Some?
      && NormaliseListName(listname).value in lists && !lists[NormaliseListName(listname).value])
  {
    match NormaliseListName(listname)
    case None => None
    case Some(name) => Some(name in lists && !lists[name])
  }
}
