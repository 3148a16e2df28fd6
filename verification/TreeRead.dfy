/** Reading nested trees back into flat paths (fastgit_index_read_tree of src/index/index.c), and the round
    trip with writing them. */
module TreeRead {
  import opened Bytes
  import opened TreeFormat
  import opened ObjectFormat
  import opened TreeBuild
  import opened Entries

  /** A tree still to be read, with the path it is read under. */
  datatype Frame = Frame(oid: bytes, prefix: bytes)

  /** The subtrees among the entries of a tree, and what is put on the stack for them. */
  function SubIds(es: seq<TreeEntry>): seq<bytes> {
    if es == [] then []
    else if es[0].mode == DIRECTORY then [es[0].oid] + SubIds(es[1..])
    else SubIds(es[1..])
  }

  function Pushed(es: seq<TreeEntry>, prefix: bytes): seq<Frame> {
    if es == [] then []
    else if es[0].mode == DIRECTORY then [Frame(es[0].oid, SubPrefix(prefix, es[0].name))] + Pushed(es[1..], prefix)
    else Pushed(es[1..], prefix)
  }

  /** The files among the entries of a tree. */
  function Added(es: seq<TreeEntry>, prefix: bytes): seq<File> {
    if es == [] then []
    else if es[0].mode == DIRECTORY then Added(es[1..], prefix)
    else [File(prefix + es[0].name, es[0].mode, es[0].oid)] + Added(es[1..], prefix)
  }

  // ----- termination -----

  predicate IsTree(store: Store, id: bytes) {
    id in store && store[id].kind == Tree && Parse(store[id].data).Ok?
  }

  function SubTrees(store: Store, id: bytes): seq<bytes> {
    if IsTree(store, id) then SubIds(Parse(store[id].data).value) else []
  }

  /** Trees nest at most d deep below this id; without such a bound reading would not end. */
  ghost predicate Bounded(store: Store, id: bytes, d: nat)
    decreases d, 0
  {
    IsTree(store, id) ==> d > 0 && AllBounded(store, SubTrees(store, id), d - 1)
  }

  ghost predicate AllBounded(store: Store, ids: seq<bytes>, d: nat)
    decreases d, |ids|
  {
    ids == [] || (Bounded(store, ids[0], d) && AllBounded(store, ids[1..], d))
  }

  /** How many trees are read for this id, counting a tree once for every path to it. */
  ghost function Weight(store: Store, id: bytes, d: nat): (w: nat)
    requires Bounded(store, id, d)
    ensures w >= 1
    decreases d, 0
  {
    1 + if IsTree(store, id) then Weights(store, SubTrees(store, id), d - 1) else 0
  }

  ghost function Weights(store: Store, ids: seq<bytes>, d: nat): nat
    requires AllBounded(store, ids, d)
    decreases d, |ids|
  {
    if ids == [] then 0 else Weight(store, ids[0], d) + Weights(store, ids[1..], d)
  }

  ghost predicate StackBounded(store: Store, stack: seq<Frame>, ds: seq<nat>) {
    |ds| == |stack| && forall i | 0 <= i < |stack| :: Bounded(store, stack[i].oid, ds[i])
  }

  ghost function StackWeight(store: Store, stack: seq<Frame>, ds: seq<nat>): nat
    requires StackBounded(store, stack, ds)
  {
    if stack == [] then 0
    else
      var n := |stack| - 1;
      StackWeight(store, stack[..n], ds[..n]) + Weight(store, stack[n].oid, ds[n])
  }

  lemma StackPush(store: Store, stack: seq<Frame>, ds: seq<nat>, f: Frame, d: nat)
    requires StackBounded(store, stack, ds) && Bounded(store, f.oid, d)
    ensures StackBounded(store, stack + [f], ds + [d])
    ensures StackWeight(store, stack + [f], ds + [d]) == StackWeight(store, stack, ds) + Weight(store, f.oid, d)
  {
    hide Bounded, Weight;
    assert (stack + [f])[..|stack|] == stack && (ds + [d])[..|ds|] == ds;
  }

  // ----- reading -----

  /** The entries of one tree: subtrees go on the stack, files to the result. */
  method Expand(store: Store, es: seq<TreeEntry>, prefix: bytes, stack: seq<Frame>, files: seq<File>,
                ghost ds: seq<nat>, ghost d: nat)
    returns (stack': seq<Frame>, files': seq<File>, ghost ds': seq<nat>)
    requires StackBounded(store, stack, ds) && AllBounded(store, SubIds(es), d)
    ensures stack' == stack + Pushed(es, prefix) && files' == files + Added(es, prefix)
    ensures StackBounded(store, stack', ds')
    ensures StackWeight(store, stack', ds') == StackWeight(store, stack, ds) + Weights(store, SubIds(es), d)
  {
    hide Bounded, Weight, StackWeight, StackBounded;
    stack', files', ds' := stack, files, ds;
    var i := 0;
    while i < |es|
      invariant i <= |es| && stack' + Pushed(es[i..], prefix) == stack + Pushed(es, prefix)
      invariant files' + Added(es[i..], prefix) == files + Added(es, prefix)
      invariant StackBounded(store, stack', ds') && AllBounded(store, SubIds(es[i..]), d)
      invariant StackWeight(store, stack', ds') + Weights(store, SubIds(es[i..]), d)
             == StackWeight(store, stack, ds) + Weights(store, SubIds(es), d)
    {
      var e := es[i];
      assert es[i..][1..] == es[i + 1..] && es[i..][0] == e;
      if e.mode == DIRECTORY {
        var f := Frame(e.oid, SubPrefix(prefix, e.name));
        NextSub(store, es[i..], d);
        StackPush(store, stack', ds', f, d);
        Shift(stack', f, Pushed(es[i + 1..], prefix));
        stack', ds' := stack' + [f], ds' + [d];
      } else {
        var f := File(prefix + e.name, e.mode, e.oid);
        Shift(files', f, Added(es[i + 1..], prefix));
        files' := files' + [f];
      }
      i := i + 1;
    }
    assert es[i..] == [];
  }

  lemma NextSub(store: Store, es: seq<TreeEntry>, d: nat)
    requires es != [] && es[0].mode == DIRECTORY && AllBounded(store, SubIds(es), d)
    ensures Bounded(store, es[0].oid, d) && AllBounded(store, SubIds(es[1..]), d)
    ensures Weights(store, SubIds(es), d) == Weight(store, es[0].oid, d) + Weights(store, SubIds(es[1..]), d)
  {
    hide Bounded, Weight;
    assert SubIds(es) == [es[0].oid] + SubIds(es[1..]);
    assert SubIds(es)[1..] == SubIds(es[1..]);
  }

  lemma StackOne(store: Store, f: Frame, d: nat)
    requires Bounded(store, f.oid, d)
    ensures StackBounded(store, [f], [d])
  {
  }

  lemma StackPop(store: Store, stack: seq<Frame>, ds: seq<nat>)
    requires StackBounded(store, stack, ds) && stack != []
    ensures var n := |stack| - 1;
      && |ds| == |stack| && StackBounded(store, stack[..n], ds[..n]) && Bounded(store, stack[n].oid, ds[n])
      && StackWeight(store, stack, ds) == StackWeight(store, stack[..n], ds[..n]) + Weight(store, stack[n].oid, ds[n])
  {
    hide Bounded, Weight;
  }

  lemma Unfold(store: Store, id: bytes, d: nat)
    requires Bounded(store, id, d) && id in store && store[id].kind == Tree && Parse(store[id].data).Ok?
    ensures d > 0 && AllBounded(store, SubIds(Parse(store[id].data).value), d - 1)
    ensures Weight(store, id, d) == 1 + Weights(store, SubIds(Parse(store[id].data).value), d - 1)
  {
    hide Parse;
  }

  // ----- what the stack stands for when every tree was written and is still held -----

  /** No file has the mode that marks directories. */
  ghost predicate Plain(xs: seq<Node>) {
    forall i | 0 <= i < |xs| :: PlainNode(xs[i])
  }

  ghost predicate PlainNode(x: Node) {
    match x case Leaf(_, mode, _) => mode != DIRECTORY case Dir(_, sub) => Plain(sub)
  }

  /** The id names this tree, and the store holds it and every tree below it. */
  ghost predicate Reads(h: Hash, store: Store, xs: seq<Node>, oid: bytes) {
    oid == TreeId(h, Content(h, xs)) && Good(xs) && Held(h, store, Contents(h, xs))
  }

  ghost predicate Mirrors(h: Hash, store: Store, stack: seq<Frame>, gs: seq<seq<Node>>) {
    |gs| == |stack| && forall i | 0 <= i < |stack| :: Reads(h, store, gs[i], stack[i].oid) && Plain(gs[i])
  }

  /** The files still to come from the stack. */
  ghost function Pending(stack: seq<Frame>, gs: seq<seq<Node>>): multiset<File>
    requires |gs| == |stack|
  {
    if stack == [] then multiset{}
    else
      var n := |stack| - 1;
      Pending(stack[..n], gs[..n]) + FilesIn(gs[n], stack[n].prefix)
  }

  lemma PendingNext(stack: seq<Frame>, gs: seq<seq<Node>>, f: Frame, g: seq<Node>)
    requires |gs| == |stack|
    ensures Pending(stack + [f], gs + [g]) == Pending(stack, gs) + FilesIn(g, f.prefix)
  {
    hide FilesIn;
    assert (stack + [f])[..|stack|] == stack && (gs + [g])[..|gs|] == gs;
  }

  lemma {:induction false} PendingAppend(s1: seq<Frame>, g1: seq<seq<Node>>, s2: seq<Frame>, g2: seq<seq<Node>>)
    requires |s1| == |g1| && |s2| == |g2|
    ensures Pending(s1 + s2, g1 + g2) == Pending(s1, g1) + Pending(s2, g2)
    decreases |s2|
  {
    hide FilesIn, Pending;
    if s2 == [] {
      assert s1 + s2 == s1 && g1 + g2 == g1;
      NothingPending(s2, g2);
    } else {
      var n := |s2| - 1;
      var t2, h2, f, g := s2[..n], g2[..n], s2[n], g2[n];
      PendingAppend(s1, g1, t2, h2);
      assert s2 == t2 + [f] && g2 == h2 + [g];
      PendingNext(t2, h2, f, g);
      PendingNext(s1 + t2, g1 + h2, f, g);
      assert s1 + s2 == s1 + t2 + [f] && g1 + g2 == g1 + h2 + [g];
    }
  }

  lemma PendingOne(f: Frame, g: seq<Node>)
    ensures Pending([f], [g]) == FilesIn(g, f.prefix)
  {
    hide FilesIn;
    assert [f][..0] == [] && [g][..0] == [];
  }

  function Subs(xs: seq<Node>): seq<seq<Node>> {
    if xs == [] then [] else if xs[0].Dir? then [xs[0].sub] + Subs(xs[1..]) else Subs(xs[1..])
  }

  lemma EntriesTail(h: Hash, xs: seq<Node>)
    requires xs != []
    ensures EntriesOf(h, xs) != [] && EntriesOf(h, xs)[0] == EntryOf(h, xs[0])
      && EntriesOf(h, xs)[1..] == EntriesOf(h, xs[1..])
  {
    hide EntryOf;
  }

  /** One level: the files of a tree are those among its entries and those of the subtrees pushed. */
  lemma {:induction false} Level(h: Hash, xs: seq<Node>, prefix: bytes)
    requires Plain(xs)
    ensures |Pushed(EntriesOf(h, xs), prefix)| == |Subs(xs)|
    ensures FilesIn(xs, prefix)
         == multiset(Added(EntriesOf(h, xs), prefix)) + Pending(Pushed(EntriesOf(h, xs), prefix), Subs(xs))
  {
    hide SubPrefix, TreeId, Content, EntriesOf, Pending, PlainNode;
    if xs == [] {
      NoEntries(h, prefix);
    } else {
      var x, t := xs[0], xs[1..];
      var es := EntriesOf(h, t);
      EntriesTail(h, xs);
      Level(h, t, prefix);
      assert PlainNode(x);
      match x {
        case Leaf(name, mode, oid) =>
          LeafMode(x);
          assert Added(EntriesOf(h, xs), prefix) == [File(prefix + name, mode, oid)] + Added(es, prefix);
        case Dir(name, sub) =>
          var f := Frame(TreeId(h, Content(h, sub)), SubPrefix(prefix, name));
          PendingAppend([f], [sub], Pushed(es, prefix), Subs(t));
          PendingOne(f, sub);
      }
    }
  }

  lemma LeafMode(x: Node)
    requires PlainNode(x)
    ensures x.Leaf? ==> x.mode != DIRECTORY
  {
  }

  lemma NoEntries(h: Hash, prefix: bytes)
    ensures EntriesOf(h, []) == [] && Pending([], []) == multiset{}
  {
  }

  /** What is pushed for a tree is held as well. */
  lemma {:induction false} SubsMirror(h: Hash, store: Store, xs: seq<Node>, prefix: bytes)
    requires Plain(xs) && Held(h, store, SubContents(h, xs)) && forall i | 0 <= i < |xs| :: GoodNode(xs[i])
    ensures Mirrors(h, store, Pushed(EntriesOf(h, xs), prefix), Subs(xs))
  {
    hide SubPrefix, TreeId, Content, EntriesOf, PlainNode, GoodNode, Mirrors, Reads, Held;
    if xs == [] {
      NoEntries(h, prefix);
      NoMirrors(h, store, Pushed(EntriesOf(h, xs), prefix), Subs(xs));
    } else {
      var x, t := xs[0], xs[1..];
      EntriesTail(h, xs);
      HeldParts(h, store, xs);
      SubsMirror(h, store, t, prefix);
      assert PlainNode(x) && GoodNode(x);
      match x {
        case Leaf(name, mode, oid) => LeafMode(x);
        case Dir(name, sub) =>
          DirParts(x);
          var f := Frame(TreeId(h, Content(h, sub)), SubPrefix(prefix, name));
          OneMirror(h, store, f, sub);
          MirrorsAppend(h, store, [f], [sub], Pushed(EntriesOf(h, t), prefix), Subs(t));
      }
    }
  }

  lemma NoMirrors(h: Hash, store: Store, stack: seq<Frame>, gs: seq<seq<Node>>)
    requires stack == [] && gs == []
    ensures Mirrors(h, store, stack, gs)
  {
  }

  lemma OneMirror(h: Hash, store: Store, f: Frame, g: seq<Node>)
    requires f.oid == TreeId(h, Content(h, g)) && Good(g) && Held(h, store, Contents(h, g)) && Plain(g)
    ensures Mirrors(h, store, [f], [g])
  {
    hide TreeId, Content, Good, Held, Plain, Contents;
  }

  lemma HeldParts(h: Hash, store: Store, xs: seq<Node>)
    requires xs != [] && Held(h, store, SubContents(h, xs))
    ensures Held(h, store, SubContents(h, xs[1..])) && (xs[0].Dir? ==> Held(h, store, Contents(h, xs[0].sub)))
  {
    hide TreeId, Contents;
  }

  lemma DirParts(x: Node)
    requires PlainNode(x) && GoodNode(x) && x.Dir?
    ensures Plain(x.sub) && Good(x.sub)
  {
  }

  /** The object read for a tree parses to its entries. */
  lemma {:induction false} ReadsEntries(h: Hash, store: Store, xs: seq<Node>, oid: bytes)
    requires Reads(h, store, xs, oid) && forall content :: |TreeId(h, content)| == ID_SIZE
    ensures oid in store && store[oid].kind == Tree && Parse(store[oid].data) == Ok(EntriesOf(h, xs))
  {
    hide Parse, Print, TreeId;
    assert Content(h, xs) in Contents(h, xs);
    forall e <- EntriesOf(h, xs) ensures Printable(e) {
      var i :| 0 <= i < |xs| && EntriesOf(h, xs)[i] == e;
      assert GoodNode(xs[i]);
    }
    TreeFormat.RoundTrip(EntriesOf(h, xs));
  }

  lemma MirrorsAppend(h: Hash, store: Store, s1: seq<Frame>, g1: seq<seq<Node>>, s2: seq<Frame>, g2: seq<seq<Node>>)
    requires Mirrors(h, store, s1, g1) && Mirrors(h, store, s2, g2)
    ensures Mirrors(h, store, s1 + s2, g1 + g2)
  {
    hide Reads, Plain;
  }

  /** One turn of the reading loop keeps what is done and what is to come together. */
  lemma LevelStep(h: Hash, store: Store, stack: seq<Frame>, gs: seq<seq<Node>>, files: seq<File>, cur: Frame,
                  xs: seq<Node>)
    requires Mirrors(h, store, stack, gs) && Reads(h, store, xs, cur.oid) && Plain(xs)
    ensures var es := EntriesOf(h, xs);
      && Mirrors(h, store, stack + Pushed(es, cur.prefix), gs + Subs(xs))
      && multiset(files + Added(es, cur.prefix)) + Pending(stack + Pushed(es, cur.prefix), gs + Subs(xs))
         == multiset(files) + Pending(stack, gs) + FilesIn(xs, cur.prefix)
  {
    hide Mirrors, Plain, Pending, EntriesOf, Pushed, Added, Subs, FilesIn;
    var es := EntriesOf(h, xs);
    Level(h, xs, cur.prefix);
    SubsMirror(h, store, xs, cur.prefix);
    MirrorsAppend(h, store, stack, gs, Pushed(es, cur.prefix), Subs(xs));
    MirrorSizes(h, store, stack, gs);
    PendingAppend(stack, gs, Pushed(es, cur.prefix), Subs(xs));
  }

  lemma MirrorSizes(h: Hash, store: Store, stack: seq<Frame>, gs: seq<seq<Node>>)
    requires Mirrors(h, store, stack, gs)
    ensures |gs| == |stack|
  {
  }

  lemma MirrorPop(h: Hash, store: Store, stack: seq<Frame>, gs: seq<seq<Node>>)
    requires Mirrors(h, store, stack, gs) && stack != []
    ensures var n := |stack| - 1;
      && |gs| == |stack| && Mirrors(h, store, stack[..n], gs[..n]) && Reads(h, store, gs[n], stack[n].oid)
      && Plain(gs[n])
      && Pending(stack, gs) == Pending(stack[..n], gs[..n]) + FilesIn(gs[n], stack[n].prefix)
  {
    hide Reads, Plain, FilesIn;
  }

  lemma AddedModes(es: seq<TreeEntry>, prefix: bytes)
    ensures forall f <- Added(es, prefix) :: f.mode != DIRECTORY
    ensures (forall e <- es :: e.mode < TWO32) ==> forall f <- Added(es, prefix) :: f.mode < TWO32
  {
  }

  /** The reading loop: the last tree put on the stack comes first. It fails on a missing object, on an
      object that is no tree, and on an overlong mode. A tree that was written is read back completely exactly
      when no file has the mode of a directory. */
  method ReadTree(store: Store, oid: bytes, ghost depth: nat, ghost h: Hash, ghost root: seq<Node>)
    returns (r: Result<seq<File>>)
    requires Bounded(store, oid, depth) && forall content :: |TreeId(h, content)| == ID_SIZE
    ensures oid !in store ==> r == Err(ENOENT)
    ensures oid in store && store[oid].kind != Tree ==> r == Err(EINVAL)
    ensures oid in store && store[oid].kind == Tree && Parse(store[oid].data).Err? ==> r == Err(ERROR)
    ensures r.Ok? ==> forall f <- r.value :: f.mode != DIRECTORY && f.mode < TWO32
    ensures Reads(h, store, root, oid) ==> (r.Ok? && multiset(r.value) == FilesIn(root, []) <==> Plain(root))
  {
    hide Bounded, Weight, StackWeight, StackBounded, Reads, Plain, FilesIn, Parse, Pending, Mirrors, TreeId, Pushed;
    hide Added, Subs, EntriesOf;
    var stack: seq<Frame>, files: seq<File> := [Frame(oid, [])], [];
    ghost var ds, gs := [depth], [root];
    ghost var good := Reads(h, store, root, oid) && Plain(root);
    StackOne(store, stack[0], depth);
    if good { MirrorOne(h, store, stack[0], root); }
    while stack != []
      invariant StackBounded(store, stack, ds)
      invariant forall f <- files :: f.mode != DIRECTORY && f.mode < TWO32
      invariant good ==> |gs| == |stack| && Mirrors(h, store, stack, gs)
      invariant good ==> multiset(files) + Pending(stack, gs) == FilesIn(root, [])
      invariant stack == [Frame(oid, [])] || (oid in store && store[oid].kind == Tree && Parse(store[oid].data).Ok?)
      decreases StackWeight(store, stack, ds)
    {
      var n := |stack| - 1;
      var cur := stack[n];
      StackPop(store, stack, ds);
      ghost var xs, d := [], ds[n];
      if good {
        MirrorPop(h, store, stack, gs);
        xs, gs := gs[n], gs[..n];
        ReadsEntries(h, store, xs, cur.oid);
        LevelStep(h, store, stack[..n], gs, files, cur, xs);
        gs := gs + Subs(xs);
      }
      stack, ds := stack[..n], ds[..n];
      if cur.oid !in store { return Err(ENOENT); }
      if store[cur.oid].kind != Tree { return Err(EINVAL); }
      var parsed := ParseContent(store[cur.oid].data);
      if parsed.Err? {
        OnlyTooLong(store[cur.oid].data);
        return Err(parsed.error);
      }
      Unfold(store, cur.oid, d);
      ParsedModes(store[cur.oid].data);
      AddedModes(parsed.value, cur.prefix);
      stack, files, ds := Expand(store, parsed.value, cur.prefix, stack, files, ds, d - 1);
      if good { MirrorSizes(h, store, stack, gs); }
    }
    if good { NothingPending(stack, gs); }
    PlainFiles(root, []);
    forall f <- multiset(files) ensures f.mode != DIRECTORY { assert f in files; }
    r := Ok(files);
  }

  lemma MirrorOne(h: Hash, store: Store, f: Frame, root: seq<Node>)
    requires Reads(h, store, root, f.oid) && Plain(root)
    ensures Mirrors(h, store, [f], [root]) && Pending([f], [root]) == FilesIn(root, f.prefix)
  {
    hide Reads, Plain, FilesIn;
    PendingOne(f, root);
  }

  lemma NothingPending(stack: seq<Frame>, gs: seq<seq<Node>>)
    requires stack == [] && gs == []
    ensures Pending(stack, gs) == multiset{}
  {
  }

  // ----- the round trip -----

  function Depth(xs: seq<Node>): nat
    decreases xs, 1
  {
    1 + SubDepth(xs)
  }

  function SubDepth(xs: seq<Node>): nat
    decreases xs, 0
  {
    if xs == [] then 0
    else
      var m, n := SubDepth(xs[1..]), if xs[0].Dir? then Depth(xs[0].sub) else 0;
      if m > n then m else n
  }

  lemma {:induction false} BoundedDeeper(store: Store, id: bytes, d: nat, e: nat)
    requires Bounded(store, id, d) && d <= e
    ensures Bounded(store, id, e)
    decreases d, 0
  {
    if IsTree(store, id) { AllBoundedDeeper(store, SubTrees(store, id), d - 1, e - 1); }
  }

  lemma {:induction false} AllBoundedDeeper(store: Store, ids: seq<bytes>, d: nat, e: nat)
    requires AllBounded(store, ids, d) && d <= e
    ensures AllBounded(store, ids, e)
    decreases d, |ids|
  {
    if ids != [] {
      BoundedDeeper(store, ids[0], d, e);
      AllBoundedDeeper(store, ids[1..], d, e);
    }
  }

  /** A written tree nests as deep as its directories. */
  lemma {:induction false} WrittenBounded(h: Hash, store: Store, xs: seq<Node>)
    requires Reads(h, store, xs, TreeId(h, Content(h, xs))) && Plain(xs)
    requires forall content :: |TreeId(h, content)| == ID_SIZE
    ensures Bounded(store, TreeId(h, Content(h, xs)), Depth(xs))
    decreases xs, 1
  {
    hide TreeId, Content, EntriesOf, Plain, Parse, AllBounded;
    ReadsEntries(h, store, xs, TreeId(h, Content(h, xs)));
    SubsBounded(h, store, xs);
  }

  lemma {:induction false} SubsBounded(h: Hash, store: Store, xs: seq<Node>)
    requires Plain(xs) && Held(h, store, SubContents(h, xs)) && forall i | 0 <= i < |xs| :: GoodNode(xs[i])
    requires forall content :: |TreeId(h, content)| == ID_SIZE
    ensures AllBounded(store, SubIds(EntriesOf(h, xs)), SubDepth(xs))
    decreases xs, 0
  {
    hide TreeId, Content, EntriesOf, PlainNode, GoodNode, Bounded;
    if xs == [] {
      NoEntries(h, []);
    } else {
      var x, t, d := xs[0], xs[1..], SubDepth(xs);
      EntriesTail(h, xs);
      SubsBounded(h, store, t);
      AllBoundedDeeper(store, SubIds(EntriesOf(h, t)), SubDepth(t), d);
      assert PlainNode(x) && GoodNode(x);
      match x {
        case Leaf(_, _, _) => LeafMode(x);
        case Dir(_, sub) =>
          DirParts(x);
          WrittenBounded(h, store, sub);
          BoundedDeeper(store, TreeId(h, Content(h, sub)), Depth(sub), d);
          assert SubIds(EntriesOf(h, xs))[1..] == SubIds(EntriesOf(h, t));
      }
    }
  }

  /** Whether a tree is plain shows in the modes of its files. */
  lemma {:induction false} PlainFiles(xs: seq<Node>, prefix: bytes)
    ensures Plain(xs) <==> forall f <- FilesIn(xs, prefix) :: f.mode != DIRECTORY
  {
    hide SubPrefix, PlainNode;
    if xs != [] {
      PlainFiles(xs[1..], prefix);
      PlainOne(xs[0], prefix);
      assert Plain(xs) <==> PlainNode(xs[0]) && Plain(xs[1..]) by { PlainCons(xs); }
      assert FilesIn(xs, prefix) == FilesOf(xs[0], prefix) + FilesIn(xs[1..], prefix);
    }
  }

  lemma PlainCons(xs: seq<Node>)
    requires xs != []
    ensures Plain(xs) <==> PlainNode(xs[0]) && Plain(xs[1..])
  {
    hide PlainNode;
    if PlainNode(xs[0]) && Plain(xs[1..]) {
      forall i | 0 <= i < |xs| ensures PlainNode(xs[i]) {
        if i > 0 { assert xs[i] == xs[1..][i - 1]; }
      }
    }
  }

  lemma {:induction false} PlainOne(x: Node, prefix: bytes)
    ensures PlainNode(x) <==> forall f <- FilesOf(x, prefix) :: f.mode != DIRECTORY
    decreases x
  {
    match x
    case Leaf(name, mode, oid) => assert File(prefix + name, mode, oid) in FilesOf(x, prefix);
    case Dir(name, sub) => PlainFiles(sub, SubPrefix(prefix, name));
  }

  function FileOf(e: Entry): File {
    File(e.path, e.mode, e.oid)
  }

  function FilesOfIndex(es: seq<Entry>): (fs: seq<File>)
    ensures |fs| == |es| && forall i | 0 <= i < |es| :: fs[i] == FileOf(es[i])
  {
    seq(|es|, i requires 0 <= i < |es| => FileOf(es[i]))
  }

  /** The entry reading makes of a file: stage 0, no stat data, and the length of the path as flags. */
  function Restore(f: File): Entry
    requires f.mode < TWO32
  {
    Entry.Entry(f.oid, f.path, f.mode, 0, Stat(0, 0, 0, 0, 0, 0, 0, 0), 0, |f.path| % 0x1000, 0)
  }

  /** An entry as reading a tree leaves it. */
  ghost predicate Plainly(e: Entry) {
    e.stage == 0 && e.stat == Stat(0, 0, 0, 0, 0, 0, 0, 0) && e.size == 0 && e.flags == |e.path| % 0x1000
    && e.flagsExtended == 0
  }

  /** fastgit_index_write_tree: refused when there are conflicts. The empty tree of an empty index is taken for
      a structure by the object store. */
  method WriteTree(h: Hash, before: Store, es: seq<Entry>) returns (r: Written, store: Store, ghost xs: seq<Node>)
    requires FilesOk(FilesOfIndex(es)) && forall content :: |TreeId(h, content)| == ID_SIZE
    ensures r.Refused? <==> exists i :: 0 <= i < |es| && es[i].stage != 0
    ensures r.Refused? ==> r.error == EINVAL
    ensures r == Misread <==> es == []
    ensures !r.Id? ==> store == before
    ensures r.Id? ==>
      && xs != [] && Good(xs) && FilesIn(xs, []) == multiset(FilesOfIndex(es))
      && r == Id(TreeId(h, Content(h, xs))) && r.oid == h(Serialize(Tree, Content(h, xs)))
        && Grew(h, before, store, Contents(h, xs))
  {
    hide FilesIn, Good, TreeId, Grew, Contents, Content;
    var i := 0;
    while i < |es|
      invariant i <= |es| && forall j | 0 <= j < i :: es[j].stage == 0
    {
      if es[i].stage != 0 { return Refused(EINVAL), before, []; }
      i := i + 1;
    }
    if es == [] { return Misread, before, []; }
    var files := FilesOfIndex(es);
    AllUnderRoot(files, []);
    SomeFile(files);
    var oid: bytes;
    store, oid, xs := WriteTreeRecursive(h, before, files, []);
    TreeIdIs(h, Content(h, xs));
    r := Id(oid);
  }

  lemma TreeIdIs(h: Hash, content: bytes)
    ensures TreeId(h, content) == h(Serialize(Tree, content))
  {
    hide Serialize;
  }

  lemma {:induction false} AllUnderRoot(files: seq<File>, root: bytes)
    requires root == []
    ensures Under(files, root) == multiset(files)
    decreases |files|
  {
    if files != [] {
      var n := |files| - 1;
      var init, f := files[..n], files[n];
      AllUnderRoot(init, root);
      assert files == init + [f] && root <= f.path;
    }
  }

  lemma SomeFile(files: seq<File>)
    requires files != []
    ensures multiset(files) != multiset{}
  {
    assert files[0] in multiset(files);
  }

  /** After a write that met no collision, the tree id leads to the whole tree. */
  lemma ReadsBack(h: Hash, before: Store, store: Store, xs: seq<Node>)
    requires Good(xs) && Grew(h, before, store, Contents(h, xs)) && NoCollision(h, before, Contents(h, xs))
    requires forall content :: |TreeId(h, content)| == ID_SIZE
    ensures Reads(h, store, xs, TreeId(h, Content(h, xs)))
    ensures Plain(xs) ==> Bounded(store, TreeId(h, Content(h, xs)), Depth(xs))
  {
    hide Good, Content, Contents, TreeId, Bounded, Grew, NoCollision, Held;
    GrewHeld(h, before, store, Contents(h, xs));
    if Plain(xs) { WrittenBounded(h, store, xs); }
  }

  /** The hash tells apart the tree contents any arrangement of these files can have. */
  ghost predicate NoTreeCollision(h: Hash, store: Store, files: seq<File>) {
    forall xs: seq<Node> | Good(xs) && FilesIn(xs, []) == multiset(files) :: NoCollision(h, store, Contents(h, xs))
  }

  /** Whatever tree holds these files, once it is written trees nest at most d deep below its id. */
  ghost predicate Shallow(h: Hash, before: Store, files: seq<File>, d: nat) {
    forall xs: seq<Node>, store: Store
      | Good(xs) && FilesIn(xs, []) == multiset(files) && Grew(h, before, store, Contents(h, xs)) ::
      Bounded(store, TreeId(h, Content(h, xs)), d)
  }

  predicate NoDirectoryMode(es: seq<Entry>) {
    forall i | 0 <= i < |es| :: es[i].mode != DIRECTORY
  }

  /** The tree round trip: writing an index without conflicts as trees and reading them gives back the same
      paths, modes and ids exactly when no entry has the mode of a directory. Otherwise the id of such an entry
      is itself read as a tree, which is why the nesting below it must be bounded. */
  method RoundTrip(h: Hash, before: Store, es: seq<Entry>, ghost depth: nat)
    returns (store: Store, r: Result<seq<Entry>>)
    requires es != [] && FilesOk(FilesOfIndex(es)) && forall i | 0 <= i < |es| :: es[i].stage == 0
    requires forall content :: |TreeId(h, content)| == ID_SIZE
    requires NoTreeCollision(h, before, FilesOfIndex(es))
    requires !NoDirectoryMode(es) ==> Shallow(h, before, FilesOfIndex(es), depth)
    ensures r.Ok? && multiset(FilesOfIndex(r.value)) == multiset(FilesOfIndex(es)) <==> NoDirectoryMode(es)
    ensures r.Ok? ==> forall i | 0 <= i < |r.value| :: Plainly(r.value[i])
    ensures forall k <- before :: k in store && store[k] == before[k]
  {
    hide FilesIn, Good, TreeId, NoCollision, Contents, Content, Plain, Reads, Bounded, Depth, Shallow, Grew;
    hide NoTreeCollision, FilesOk, Held;
    var w: Written;
    ghost var xs;
    w, store, xs := WriteTree(h, before, es);
    GrewKeeps(h, before, store, Contents(h, xs));
    ghost var d := ReadsEnds(h, before, store, es, xs, depth);
    var fs := ReadTree(store, w.oid, d, h, xs);
    if fs.Err? { return store, Err(fs.error); }
    var entries := RestoreAll(fs.value);
    r := Ok(entries);
    assert FilesOfIndex(entries) == fs.value;
  }

  lemma GrewKeeps(h: Hash, before: Store, store: Store, cs: set<bytes>)
    requires Grew(h, before, store, cs)
    ensures forall k <- before :: k in store && store[k] == before[k]
  {
  }

  /** The written tree can be read, and reading it ends. */
  lemma ReadsEnds(h: Hash, before: Store, store: Store, es: seq<Entry>, xs: seq<Node>, depth: nat) returns (d: nat)
    requires Good(xs) && FilesIn(xs, []) == multiset(FilesOfIndex(es)) && Grew(h, before, store, Contents(h, xs))
    requires forall content :: |TreeId(h, content)| == ID_SIZE
    requires NoTreeCollision(h, before, FilesOfIndex(es))
    requires !NoDirectoryMode(es) ==> Shallow(h, before, FilesOfIndex(es), depth)
    ensures var oid := TreeId(h, Content(h, xs)); Reads(h, store, xs, oid) && Bounded(store, oid, d)
    ensures Plain(xs) <==> NoDirectoryMode(es)
  {
    hide FilesIn, Good, TreeId, NoCollision, Contents, Content, Plain, Reads, Bounded, Depth, Grew, NoDirectoryMode;
    PlainEntries(es, xs);
    ReadsBack(h, before, store, xs);
    d := if NoDirectoryMode(es) then Depth(xs) else depth;
  }

  lemma PlainEntries(es: seq<Entry>, xs: seq<Node>)
    requires FilesIn(xs, []) == multiset(FilesOfIndex(es))
    ensures Plain(xs) <==> NoDirectoryMode(es)
  {
    hide FilesIn, Plain;
    PlainFiles(xs, []);
    var files := FilesOfIndex(es);
    forall i | 0 <= i < |es| ensures files[i] in FilesIn(xs, []) && files[i].mode == es[i].mode {
      assert files[i] in files;
    }
    forall f <- FilesIn(xs, []) ensures f in files {}
  }

  method RestoreAll(fs: seq<File>) returns (r: seq<Entry>)
    requires forall i | 0 <= i < |fs| :: fs[i].mode < TWO32
    ensures |r| == |fs| && forall i | 0 <= i < |fs| :: r[i] == Restore(fs[i])
  {
    r := [];
    var i := 0;
    while i < |fs|
      invariant i <= |fs| && |r| == i && forall j | 0 <= j < i :: r[j] == Restore(fs[j])
    {
      r := r + [Restore(fs[i])];
      i := i + 1;
    }
  }
}
