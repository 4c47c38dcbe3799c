/**
  The browser's thread view (`webui/js/source/construct-thread.js`): the reply
  tree the server sends is turned into nested containers, one per email, and
  every email is fetched once into its container.  The page is abstracted to a
  tree of `Container`s, and the `GET` calls to `api/email.lua` become an
  appended log of `Fetch` records.
 */
module ConstructThread {
  import opened Common
  import opened EpochSort
  import Records

  /**
    A node of the reply tree: `tid` (empty when absent), `id`, `mid`, timestamp
    and replies.  A node whose `children` is missing or not an array is drawn
    like one with no replies, so both are an empty `children` here.
   */
  datatype Thread = Thread(tid: string, id: string, mid: string, epoch: int, children: seq<Thread>)

  /** `thread.tid || thread.id`: the id a node's container and fetch use. */
  function Key(t: Thread): string {
    if t.tid != "" then t.tid else t.id
  }

  function EpochOf(t: Thread): int {
    t.epoch
  }

  /** The replies in the order they are drawn: ascending timestamp, ties in the order received. */
  function Children(t: Thread): (r: seq<Thread>)
    ensures |r| == |t.children|
  {
    SortBy(t.children, EpochOf)
  }

  /** Each reply in drawing order is one of the replies received. */
  lemma ChildIn(t: Thread, i: int)
    requires 0 <= i < |t.children|
    ensures Children(t)[i] in t.children
  {
    SortByMembers(t.children, EpochOf);
  }

  /** The five border colours a nested container cycles through. */
  const Palette: seq<string> := ["286090", "ccab0a", "c04331", "169e4e", "6d4ca5"]

  /** `max_nesting`: a window narrower than 700 pixels allows one level per 250 pixels. */
  function MaxNesting(mw: nat, configured: int): int {
    if mw < 700 then mw / 250 else configured
  }

  /**
    One container on the page: the email it shows (`key`, `epoch`), its
    nesting level, whether it is drawn nested (`email_wrapper`, with a left
    border in `Palette[colour]`) or flat (`email_wrapper_nonest`), and the
    replies' containers that follow its inner wrapper.
   */
  datatype Container = Container(key: string, epoch: int, level: nat, nested: bool, colour: nat, replies: seq<Container>)

  function ContainerEpoch(c: Container): int {
    c.epoch
  }

  /**
    The container `construct_thread(t, cid, nestlevel)` builds, with `cid` and
    `nestlevel` as passed (0 standing for the undefined of the first call):
    both are incremented, the colour taken modulo 5, and the replies follow.
   */
  function Render(t: Thread, cid: nat, level: nat, maxN: int): Container
    decreases t, |t.children| + 1
  {
    var c := (cid + 1) % 5;
    Container(Key(t), t.epoch, level + 1, level + 1 < maxN, c, RenderFirst(t, c, level + 1, maxN, |t.children|))
  }

  /** The containers of the first `n` replies in drawing order; the i-th is drawn with colour number `colour + i`. */
  function RenderFirst(t: Thread, colour: nat, level: nat, maxN: int, n: nat): (r: seq<Container>)
    requires n <= |t.children|
    ensures |r| == n
    decreases t, n
  {
    if n == 0 then []
    else
      ChildIn(t, n - 1);
      RenderFirst(t, colour, level, maxN, n - 1) + [Render(Children(t)[n - 1], colour + n - 1, level, maxN)]
  }

  lemma {:induction false} RenderFirstAt(t: Thread, colour: nat, level: nat, maxN: int, n: nat, i: int)
    requires 0 <= i < n <= |t.children|
    ensures RenderFirst(t, colour, level, maxN, n)[i] == Render(Children(t)[i], colour + i, level, maxN)
  {
    if i < n - 1 {
      RenderFirstAt(t, colour, level, maxN, n - 1, i);
    }
  }

  /** The i-th reply container of a drawn node, in terms of the i-th reply in drawing order. */
  lemma RenderReply(t: Thread, cid: nat, level: nat, maxN: int, i: int)
    requires 0 <= i < |t.children|
    ensures var c := Render(t, cid, level, maxN);
            && |c.replies| == |t.children|
            && c.colour == (cid + 1) % 5 && c.level == level + 1
            && c.replies[i] == Render(Children(t)[i], c.colour + i, c.level, maxN)
  {
    RenderFirstAt(t, (cid + 1) % 5, level + 1, maxN, |t.children|, i);
  }

  /** The ids in the order their fetches are considered: every reply's subtree first, then the node itself. */
  function PostOrder(t: Thread): seq<string>
    decreases t, |t.children| + 1
  {
    Below(t, |t.children|) + [Key(t)]
  }

  /** The ids of the first `n` replies' subtrees (in drawing order), in fetch order. */
  function Below(t: Thread, n: nat): seq<string>
    requires n <= |t.children|
    decreases t, n
  {
    if n == 0 then []
    else
      ChildIn(t, n - 1);
      Below(t, n - 1) + PostOrder(Children(t)[n - 1])
  }

  /** The ids of a tree, read straight from the tree as received (an independent reference for `PostOrder`). */
  function KeysOf(t: Thread): set<string>
    decreases t
  {
    var cs := t.children;
    {Key(t)} + (set i, k | 0 <= i < |cs| && k in KeysOf(cs[i]) :: k)
  }

  /** The ids that are fetched: each id the first time it comes up, unless it is in `seen` already. */
  function Dedup(keys: seq<string>, seen: seq<string>): seq<string> {
    if keys == [] then []
    else if keys[0] in seen then Dedup(keys[1..], seen)
    else [keys[0]] + Dedup(keys[1..], seen + [keys[0]])
  }

  predicate NoDuplicates(s: seq<string>) {
    forall i, j :: 0 <= i < j < |s| ==> s[i] != s[j]
  }

  /**
    Every id is fetched at most once and never when it was seen before; every
    id that comes up is either seen already or fetched; nothing else is fetched.
   */
  lemma {:induction false} DedupSpec(keys: seq<string>, seen: seq<string>)
    ensures NoDuplicates(Dedup(keys, seen))
    ensures forall k :: k in Dedup(keys, seen) ==> k in keys && k !in seen
    ensures forall k :: k in keys ==> k in seen || k in Dedup(keys, seen)
  {
    DedupFrom(keys, seen);
    DedupNoDuplicates(keys, seen);
    DedupCovers(keys, seen);
  }

  lemma {:induction false} DedupFrom(keys: seq<string>, seen: seq<string>)
    ensures forall k :: k in Dedup(keys, seen) ==> k in keys && k !in seen
  {
    if keys != [] {
      if keys[0] in seen {
        DedupFrom(keys[1..], seen);
      } else {
        var seen' := seen + [keys[0]];
        DedupFrom(keys[1..], seen');
        forall k | k in Dedup(keys, seen)
          ensures k in keys && k !in seen
        {
          if k != keys[0] {
            assert k in Dedup(keys[1..], seen');
            assert k in keys[1..] && k !in seen';
          }
        }
      }
    }
  }

  lemma {:induction false} DedupNoDuplicates(keys: seq<string>, seen: seq<string>)
    ensures NoDuplicates(Dedup(keys, seen))
  {
    if keys != [] {
      if keys[0] in seen {
        DedupNoDuplicates(keys[1..], seen);
      } else {
        var seen' := seen + [keys[0]];
        var rest := Dedup(keys[1..], seen');
        DedupNoDuplicates(keys[1..], seen');
        DedupFrom(keys[1..], seen');
        var r := [keys[0]] + rest;
        assert Dedup(keys, seen) == r;
        forall i, j | 0 <= i < j < |r|
          ensures r[i] != r[j]
        {
          if i == 0 {
            assert r[j] == rest[j - 1] && rest[j - 1] in rest;
          } else {
            assert r[i] == rest[i - 1] && r[j] == rest[j - 1];
          }
        }
      }
    }
  }

  lemma {:induction false} DedupCovers(keys: seq<string>, seen: seq<string>)
    ensures forall k :: k in keys ==> k in seen || k in Dedup(keys, seen)
  {
    if keys != [] {
      var seen' := if keys[0] in seen then seen else seen + [keys[0]];
      DedupCovers(keys[1..], seen');
      forall k | k in keys && k != keys[0]
        ensures k in seen || k in Dedup(keys, seen)
      {
        var i :| 0 <= i < |keys| && keys[i] == k;
        assert keys[1..][i - 1] == k;
      }
    }
  }

  /** Considering two runs of ids one after the other: the second sees what the first fetched. */
  lemma {:induction false} DedupAppend(a: seq<string>, b: seq<string>, seen: seq<string>)
    ensures Dedup(a + b, seen) == Dedup(a, seen) + Dedup(b, seen + Dedup(a, seen))
  {
    if a == [] {
      assert a + b == b;
      assert seen + [] == seen;
    } else {
      assert (a + b)[0] == a[0];
      assert (a + b)[1..] == a[1..] + b;
      if a[0] in seen {
        DedupAppend(a[1..], b, seen);
      } else {
        DedupAppend(a[1..], b, seen + [a[0]]);
        assert seen + [a[0]] + Dedup(a[1..], seen + [a[0]]) == seen + Dedup(a, seen);
      }
    }
  }

  lemma {:induction false} BelowMember(t: Thread, n: nat, k: string)
    requires n <= |t.children|
    ensures k in Below(t, n) <==> exists i :: 0 <= i < n && k in PostOrder(Children(t)[i])
  {
    if n > 0 {
      BelowMember(t, n - 1, k);
      if k in PostOrder(Children(t)[n - 1]) {
        assert k in Below(t, n);
      }
    }
  }

  lemma PostOrderMember(t: Thread, k: string)
    ensures k in PostOrder(t) <==>
              k == Key(t) || exists i :: 0 <= i < |Children(t)| && k in PostOrder(Children(t)[i])
  {
    BelowMember(t, |t.children|, k);
  }

  lemma KeysOfMember(t: Thread, k: string)
    ensures k in KeysOf(t) <==> k == Key(t) || exists j :: 0 <= j < |t.children| && k in KeysOf(t.children[j])
  {
  }

  /** The sorted replies are the received replies, reordered. */
  lemma ChildrenSame(t: Thread, x: Thread)
    ensures x in Children(t) <==> x in t.children
  {
    var cs := Children(t);
    assert multiset(cs) == multiset(t.children);
    if x in cs {
      assert x in multiset(cs);
    }
    if x in t.children {
      assert x in multiset(t.children);
    }
  }

  lemma {:induction false} PostOrderInKeys(t: Thread, k: string)
    requires k in PostOrder(t)
    ensures k in KeysOf(t)
    decreases t
  {
    PostOrderMember(t, k);
    if k != Key(t) {
      var cs := Children(t);
      var i :| 0 <= i < |cs| && k in PostOrder(cs[i]);
      ChildIn(t, i);
      PostOrderInKeys(cs[i], k);
      ChildrenSame(t, cs[i]);
      var j :| 0 <= j < |t.children| && t.children[j] == cs[i];
      assert k in KeysOf(t.children[j]);
      KeysOfMember(t, k);
    } else {
      KeysOfMember(t, k);
    }
  }

  lemma {:induction false} KeysInPostOrder(t: Thread, k: string)
    requires k in KeysOf(t)
    ensures k in PostOrder(t)
    decreases t
  {
    PostOrderMember(t, k);
    KeysOfMember(t, k);
    if k != Key(t) {
      var raw := t.children;
      var j :| 0 <= j < |raw| && k in KeysOf(raw[j]);
      KeysInPostOrder(raw[j], k);
      ChildrenSame(t, raw[j]);
      var i :| 0 <= i < |Children(t)| && Children(t)[i] == raw[j];
    }
  }

  /** `PostOrder` lists exactly the ids of the tree: sorting the replies loses none and adds none. */
  lemma PostOrderKeys(t: Thread, k: string)
    ensures k in PostOrder(t) <==> k in KeysOf(t)
  {
    if k in PostOrder(t) {
      PostOrderInKeys(t, k);
    }
    if k in KeysOf(t) {
      KeysInPostOrder(t, k);
    }
  }

  /** A fetch issued while drawing: the id, and whether the page should scroll to it when it arrives. */
  datatype Fetch = Fetch(id: string, scroll: bool)

  function Ids(log: seq<Fetch>): (r: seq<string>)
    ensures |r| == |log|
  {
    seq(|log|, i requires 0 <= i < |log| => log[i].id)
  }

  lemma IdsAppend(a: seq<Fetch>, b: seq<Fetch>)
    ensures Ids(a + b) == Ids(a) + Ids(b)
  {
  }

  /** Whether a node's own fetch is issued: its id was neither seen before nor fetched for a reply below it. */
  predicate RootFetched(t: Thread, seen: seq<string>) {
    Key(t) !in seen + Dedup(Below(t, |t.children|), seen)
  }

  lemma PostOrderSplit(t: Thread, seen: seq<string>)
    ensures Dedup(PostOrder(t), seen)
         == Dedup(Below(t, |t.children|), seen) + (if RootFetched(t, seen) then [Key(t)] else [])
  {
    var b := Below(t, |t.children|);
    DedupAppend(b, [Key(t)], seen);
    var s := seen + Dedup(b, seen);
    assert [Key(t)][1..] == [];
    assert Dedup([Key(t)], s) == if Key(t) in s then [] else [Key(t)] + Dedup([], s + [Key(t)]);
  }

  /**
    `construct_thread(t, cid, nestlevel, included)`: draws the node, then each
    reply in timestamp order with the running colour, then fetches the node's
    own id unless it is in `included` already.  `included` is the array shared
    by the whole drawing, so it comes back extended; `log` is the fetches this
    call issued, in order, and only the outermost call (`top`) asks to scroll.
   */
  method Construct(t: Thread, cid: nat, level: nat, maxN: int, top: bool, included: seq<string>)
    returns (c: Container, included': seq<string>, log: seq<Fetch>)
    decreases t, 2
    ensures c == Render(t, cid, level, maxN)
    ensures included' == included + Dedup(PostOrder(t), included)
    ensures Ids(log) == Dedup(PostOrder(t), included)
    ensures forall i :: 0 <= i < |log| ==> (log[i].scroll <==> top && i == |log| - 1 && RootFetched(t, included))
    ensures RootFetched(t, included) ==> |log| > 0 && log[|log| - 1].id == Key(t)
  {
    var col := (cid + 1) % 5;
    var replies, inc;
    replies, inc, log := ConstructReplies(t, col, level + 1, maxN, included);
    c := Container(Key(t), t.epoch, level + 1, level + 1 < maxN, col, replies);
    PostOrderSplit(t, included);
    var k := Key(t);
    if k !in inc {
      IdsAppend(log, [Fetch(k, top)]);
      inc := inc + [k];
      log := log + [Fetch(k, top)];
    }
    included' := inc;
  }

  lemma ReplyStep(t: Thread, col: nat, l: nat, maxN: int, i: nat, seen: seq<string>)
    requires i < |t.children|
    ensures RenderFirst(t, col, l, maxN, i + 1) == RenderFirst(t, col, l, maxN, i) + [Render(Children(t)[i], col + i, l, maxN)]
    ensures Dedup(Below(t, i + 1), seen)
         == Dedup(Below(t, i), seen) + Dedup(PostOrder(Children(t)[i]), seen + Dedup(Below(t, i), seen))
  {
    DedupAppend(Below(t, i), PostOrder(Children(t)[i]), seen);
  }

  /** The loop of `construct_thread` over the replies, sorted by timestamp, each drawn with the next colour. */
  method ConstructReplies(t: Thread, col: nat, l: nat, maxN: int, included: seq<string>)
    returns (replies: seq<Container>, included': seq<string>, log: seq<Fetch>)
    decreases t, 1
    ensures replies == RenderFirst(t, col, l, maxN, |t.children|)
    ensures Ids(log) == Dedup(Below(t, |t.children|), included)
    ensures included' == included + Ids(log)
    ensures forall j :: 0 <= j < |log| ==> !log[j].scroll
  {
    replies := [];
    included' := included;
    log := [];
    for i := 0 to |t.children|
      invariant replies == RenderFirst(t, col, l, maxN, i)
      invariant Ids(log) == Dedup(Below(t, i), included)
      invariant included' == included + Ids(log)
      invariant forall j :: 0 <= j < |log| ==> !log[j].scroll
    {
      replies, included', log := ConstructReply(t, col, l, maxN, included, i, replies, included', log);
    }
  }

  /** One pass of that loop: the `i`-th reply in drawing order is drawn and its subtree fetched. */
  method ConstructReply(t: Thread, col: nat, l: nat, maxN: int, included: seq<string>, i: nat,
                        replies: seq<Container>, inc: seq<string>, log: seq<Fetch>)
    returns (replies': seq<Container>, inc': seq<string>, log': seq<Fetch>)
    decreases t, 0
    requires i < |t.children|
    requires replies == RenderFirst(t, col, l, maxN, i)
    requires Ids(log) == Dedup(Below(t, i), included)
    requires inc == included + Ids(log)
    requires forall j :: 0 <= j < |log| ==> !log[j].scroll
    ensures replies' == RenderFirst(t, col, l, maxN, i + 1)
    ensures Ids(log') == Dedup(Below(t, i + 1), included)
    ensures inc' == included + Ids(log')
    ensures forall j :: 0 <= j < |log'| ==> !log'[j].scroll
  {
    ChildIn(t, i);
    var reply, more;
    reply, inc', more := Construct(Children(t)[i], col + i, l, maxN, false, inc);
    replies' := replies + [reply];
    log' := log + more;
    ReplyStep(t, col, l, maxN, i, included);
    ReplyLog(included, log, more, inc, inc');
  }

  /** The fetch log after one more reply: its ids extend, and still nothing asks to scroll. */
  lemma ReplyLog(included: seq<string>, log: seq<Fetch>, more: seq<Fetch>, inc: seq<string>, inc': seq<string>)
    requires inc == included + Ids(log)
    requires inc' == inc + Ids(more)
    requires forall j :: 0 <= j < |log| ==> !log[j].scroll
    requires forall j :: 0 <= j < |more| ==> !more[j].scroll
    ensures Ids(log + more) == Ids(log) + Ids(more)
    ensures inc' == included + Ids(log + more)
    ensures forall j :: 0 <= j < |log + more| ==> !(log + more)[j].scroll
  {
    IdsAppend(log, more);
    forall j | 0 <= j < |log + more|
      ensures !(log + more)[j].scroll
    {
      if j >= |log| {
        assert (log + more)[j] == more[j - |log|];
      }
    }
  }

  /**
    The drawing rules every container keeps: a colour in 0..4, nested exactly
    when its level is below the cap, and each reply one level deeper with the
    colour one step further per earlier sibling.
   */
  predicate Layout(c: Container, maxN: int)
    decreases c
  {
    && c.colour < 5
    && (c.nested <==> c.level < maxN)
    && forall i :: 0 <= i < |c.replies| ==>
         && c.replies[i].level == c.level + 1
         && c.replies[i].colour == (c.colour + i + 1) % 5
         && Layout(c.replies[i], maxN)
  }

  /** Every container below (and including) `c` is flat. */
  predicate AllFlat(c: Container)
    decreases c
  {
    !c.nested && forall i :: 0 <= i < |c.replies| ==> AllFlat(c.replies[i])
  }

  /** Drawing keeps the layout rules everywhere; the outermost container has level 1 and colour 1. */
  lemma {:induction false} RenderLayout(t: Thread, cid: nat, level: nat, maxN: int)
    ensures Layout(Render(t, cid, level, maxN), maxN)
    ensures Render(t, cid, level, maxN).level == level + 1
    ensures cid == 0 ==> Render(t, cid, level, maxN).colour == 1
    decreases t
  {
    var c := Render(t, cid, level, maxN);
    var cs := Children(t);
    forall i | 0 <= i < |c.replies|
      ensures Layout(c.replies[i], maxN) && c.replies[i].level == c.level + 1
      ensures c.replies[i].colour == (c.colour + i + 1) % 5
    {
      RenderReply(t, cid, level, maxN, i);
      ChildIn(t, i);
      RenderLayout(cs[i], c.colour + i, c.level, maxN);
    }
  }

  /** Once a container is drawn flat, everything below it is flat too. */
  lemma {:induction false} FlatBelow(c: Container, maxN: int)
    requires Layout(c, maxN) && !c.nested
    ensures AllFlat(c)
    decreases c
  {
    forall i | 0 <= i < |c.replies|
      ensures AllFlat(c.replies[i])
    {
      FlatBelow(c.replies[i], maxN);
    }
  }

  /** The replies are drawn after the node's inner wrapper in ascending timestamp order. */
  lemma RenderSorted(t: Thread, cid: nat, level: nat, maxN: int)
    ensures SortedBy(Render(t, cid, level, maxN).replies, ContainerEpoch)
  {
    var c := Render(t, cid, level, maxN);
    var cs := Children(t);
    assert SortedBy(cs, EpochOf);
    forall i, j | 0 <= i < j < |c.replies|
      ensures c.replies[i].epoch <= c.replies[j].epoch
    {
      RenderReply(t, cid, level, maxN, i);
      RenderReply(t, cid, level, maxN, j);
    }
  }

  /** One container per reply received, each drawn from one of the received replies. */
  lemma RenderDrawnFrom(t: Thread, cid: nat, level: nat, maxN: int, i: int)
    requires 0 <= i < |t.children|
    ensures var c := Render(t, cid, level, maxN);
            && |c.replies| == |t.children|
            && exists x :: x in t.children && c.replies[i] == Render(x, c.colour + i, c.level, maxN)
  {
    ChildIn(t, i);
    RenderReply(t, cid, level, maxN, i);
  }

  /** A window narrower than 700 pixels draws the outermost email nested only from 500 pixels on. */
  lemma NarrowWindow(t: Thread, mw: nat, configured: int)
    requires mw < 700
    ensures Render(t, 0, 0, MaxNesting(mw, configured)).nested <==> mw >= 500
  {
    RenderLayout(t, 0, 0, MaxNesting(mw, configured));
  }

  // ---------------------------------------------------------------------------
  // The page
  // ---------------------------------------------------------------------------

  /** The element `email_{idx}` an overview row expands into. */
  class Placeholder {
    var visible: bool
    /** `data-filled == 'yes'` */
    var filled: bool
    var contents: seq<Container>

    constructor()
      ensures !visible && !filled && contents == []
    {
      visible := false;
      filled := false;
      contents := [];
    }
  }

  /**
    The answer of `api/thread.lua`: the old schema fills `error`, the newer one
    sets `okay` false and fills `message`.  `listRaw` is the `list_raw` of
    `json.thread`, and `emails` holds the `subject` of each entry of
    `json.emails`; the chatty layout reads both.
   */
  datatype ThreadResponse = ThreadResponse(okay: Option<bool>, message: Option<string>, error: Option<string>,
                                           thread: Option<Thread>, listRaw: Option<string>,
                                           emails: Option<seq<Option<string>>>)

  /** In the chatty layout the title reads `json.thread.list_raw` and `json.emails[0]`, and throws without them. */
  predicate ChattyThrows(json: ThreadResponse) {
    json.thread.None? || json.listRaw.None? || json.emails.None? || |json.emails.value| == 0
  }

  /** The chatty heading: the first email's subject, and a link to the list's page labelled with its posting address. */
  datatype ChattyTitle = ChattyTitle(subject: Option<string>, href: string, text: string)

  /** `json.okay === false ? json.message : json.error` */
  function ErrorMessage(json: ThreadResponse): Option<string> {
    if json.okay == Some(false) then json.message else json.error
  }

  datatype SingleThread = ErrorDialog(message: string) | Drawn(title: Option<ChattyTitle>, c: Container) | Failed

  class ThreadView {
    /** Every `GET api/email.lua` issued, oldest first. */
    var fetches: seq<Fetch>
    var currentEmailIdx: Option<nat>
    var currentOpenEmail: Option<string>
    var currentJson: Option<ThreadResponse>

    constructor()
      ensures fetches == [] && currentEmailIdx == None && currentOpenEmail == None && currentJson == None
    {
      fetches := [];
      currentEmailIdx := None;
      currentOpenEmail := None;
      currentJson := None;
    }

    /**
      The outermost `construct_thread(thread)`: a fresh `included` list, the
      cap from the window width `mw`, scrolling for the node's own fetch.
      None where `thread` is undefined and the code throws.
     */
    method ConstructThread(t: Option<Thread>, mw: nat, configured: int) returns (c: Option<Container>)
      modifies this
      ensures t.None? ==> c.None? && fetches == old(fetches)
      ensures t.Some? ==>
                && c == Some(Render(t.value, 0, 0, MaxNesting(mw, configured)))
                && |fetches| >= |old(fetches)| && fetches[..|old(fetches)|] == old(fetches)
                && Ids(fetches[|old(fetches)|..]) == Dedup(PostOrder(t.value), [])
                && forall i :: |old(fetches)| <= i < |fetches| ==>
                     (fetches[i].scroll <==> i == |fetches| - 1 && RootFetched(t.value, []))
      ensures currentEmailIdx == old(currentEmailIdx) && currentOpenEmail == old(currentOpenEmail)
      ensures currentJson == old(currentJson)
    {
      if t.None? {
        return None;
      }
      var container, _, log := Construct(t.value, 0, 0, MaxNesting(mw, configured), true, []);
      assert (fetches + log)[..|fetches|] == fetches;
      assert (fetches + log)[|fetches|..] == log;
      fetches := fetches + log;
      c := Some(container);
    }

    /**
      `expand_email_threaded(idx, flat)`, given the placeholder element (null
      when the page has none) and the tree or email the index names: a shown
      placeholder is hidden; a hidden one is shown and, unless already filled,
      filled with the drawn thread.
     */
    method ExpandEmailThreaded(idx: nat, placeholder: Placeholder?, eml: Option<Thread>, mw: nat, configured: int)
      modifies this, placeholder
      ensures placeholder == null ==> unchanged(this)
      ensures placeholder != null && old(placeholder.visible) ==>
                && !placeholder.visible && currentEmailIdx == None
                && placeholder.filled == old(placeholder.filled) && placeholder.contents == old(placeholder.contents)
                && fetches == old(fetches) && currentOpenEmail == old(currentOpenEmail)
      ensures placeholder != null && !old(placeholder.visible) ==>
                && placeholder.visible && currentEmailIdx == Some(idx)
                && (old(placeholder.filled) ==>
                      && placeholder.filled && placeholder.contents == old(placeholder.contents)
                      && fetches == old(fetches) && currentOpenEmail == old(currentOpenEmail))
                && (!old(placeholder.filled) && eml.Some? ==>
                      && placeholder.filled
                      && placeholder.contents == old(placeholder.contents) + [Render(eml.value, 0, 0, MaxNesting(mw, configured))]
                      && currentOpenEmail == Some(if eml.value.tid != "" then eml.value.tid else eml.value.mid)
                      && |fetches| >= |old(fetches)| && fetches[..|old(fetches)|] == old(fetches)
                      && Ids(fetches[|old(fetches)|..]) == Dedup(PostOrder(eml.value), []))
                && (!old(placeholder.filled) && eml.None? ==>
                      !placeholder.filled && fetches == old(fetches) && currentOpenEmail == old(currentOpenEmail))
      ensures currentJson == old(currentJson)
    {
      if placeholder == null {
        return;
      }
      if placeholder.visible {
        placeholder.visible := false;
        currentEmailIdx := None;
        return;
      }
      currentEmailIdx := Some(idx);
      placeholder.visible := true;
      if !placeholder.filled {
        if eml.Some? {
          currentOpenEmail := Some(if eml.value.tid != "" then eml.value.tid else eml.value.mid);
        }
        var c := ConstructThread(eml, mw, configured);
        if c.None? {
          return;
        }
        placeholder.contents := placeholder.contents + [c.value];
        placeholder.filled := true;
      }
    }

    /**
      `construct_single_thread(state, json)`: an error reported by either
      schema is shown instead of the thread; otherwise the thread is drawn,
      under the chatty heading in the chatty layout.  A missing answer or
      thread makes the code throw, and so, in the chatty layout, do a thread
      without `list_raw` and an answer without a first email.
     */
    method ConstructSingleThread(json: Option<ThreadResponse>, chatty: bool, mw: nat, configured: int)
      returns (shown: SingleThread)
      modifies this
      ensures currentJson == json
      ensures json.Some? && Truthy(ErrorMessage(json.value)) ==>
                shown == ErrorDialog(ErrorMessage(json.value).value) && fetches == old(fetches)
      ensures (json.None? || (!Truthy(ErrorMessage(json.value))
                              && (json.value.thread.None? || (chatty && ChattyThrows(json.value))))) ==>
                shown == Failed && fetches == old(fetches)
      ensures (json.Some? && !Truthy(ErrorMessage(json.value)) && json.value.thread.Some? && !chatty) ==>
                shown.Drawn? && shown.title.None?
      ensures (json.Some? && !Truthy(ErrorMessage(json.value)) && json.value.thread.Some? && chatty
               && !ChattyThrows(json.value)) ==>
                var listName := Records.ListAddress(json.value.listRaw.value);
                && shown.Drawn?
                && shown.title == Some(ChattyTitle(json.value.emails.value[0], "list.html?" + listName, "Posted to " + listName))
      ensures (json.Some? && !Truthy(ErrorMessage(json.value)) && json.value.thread.Some?
               && !(chatty && ChattyThrows(json.value))) ==>
                && shown.Drawn? && shown.c == Render(json.value.thread.value, 0, 0, MaxNesting(mw, configured))
                && |fetches| >= |old(fetches)| && fetches[..|old(fetches)|] == old(fetches)
                && Ids(fetches[|old(fetches)|..]) == Dedup(PostOrder(json.value.thread.value), [])
      ensures currentEmailIdx == old(currentEmailIdx) && currentOpenEmail == old(currentOpenEmail)
    {
      currentJson := json;
      if json.Some? {
        var message := ErrorMessage(json.value);
        if Truthy(message) {
          return ErrorDialog(message.value);
        }
      }
      if json.None? {
        return Failed;
      }
      var title: Option<ChattyTitle> := None;
      if chatty {
        if json.value.thread.None? || json.value.listRaw.None? {
          return Failed;
        }
        var listName := Records.ListAddress(json.value.listRaw.value);
        if json.value.emails.None? || |json.value.emails.value| == 0 {
          return Failed;
        }
        title := Some(ChattyTitle(json.value.emails.value[0], "list.html?" + listName, "Posted to " + listName));
      }
      var c := ConstructThread(json.value.thread, mw, configured);
      if c.None? {
        return Failed;
      }
      return Drawn(title, c.value);
    }
  }
}
