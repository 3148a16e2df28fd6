/** Flat index paths turned into nested tree objects and back (write_tree_recursive and
    fastgit_index_read_tree of src/index/index.c). */
module TreeBuild {
  import opened Bytes
  import opened TreeFormat
  import opened ObjectFormat
  import Fanout
  import Lex

  const SLASH: byte := 47

  /** What a tree keeps of an index entry. */
  datatype File = File(path: bytes, mode: nat, oid: bytes)

  // ----- which files lie under a prefix -----

  /** The files whose path starts with the prefix. */
  function Under(files: seq<File>, prefix: bytes): multiset<File> {
    if files == [] then multiset{}
    else
      var n := |files| - 1;
      Under(files[..n], prefix) + (if prefix <= files[n].path then multiset{files[n]} else multiset{})
  }

  /** The part of a path after the prefix. */
  function Rest(f: File, prefix: bytes): bytes
    requires prefix <= f.path
  {
    f.path[|prefix|..]
  }

  predicate IsDirect(f: File, prefix: bytes) {
    prefix <= f.path && SLASH !in Rest(f, prefix)
  }

  predicate IsNested(f: File, prefix: bytes) {
    prefix <= f.path && SLASH in Rest(f, prefix)
  }

  /** The directory under the prefix that a nested file is in. */
  function Head(f: File, prefix: bytes): (d: bytes)
    requires IsNested(f, prefix)
    ensures SLASH !in d
  {
    var r := Rest(f, prefix);
    BeforeSlash(r);
    r[..Index(r, SLASH)]
  }

  lemma {:induction false} BeforeSlash(r: bytes)
    ensures SLASH !in r[..Index(r, SLASH)]
  {
    if r != [] && r[0] != SLASH {
      BeforeSlash(r[1..]);
      var n := Index(r[1..], SLASH);
      assert r[..1 + n] == [r[0]] + r[1..][..n];
    }
  }

  function SubPrefix(prefix: bytes, name: bytes): bytes {
    prefix + name + [SLASH]
  }

  function Direct(files: seq<File>, prefix: bytes): multiset<File> {
    if files == [] then multiset{}
    else
      var n := |files| - 1;
      Direct(files[..n], prefix) + (if IsDirect(files[n], prefix) then multiset{files[n]} else multiset{})
  }

  /** The files under any of the named directories. */
  function UnderNames(files: seq<File>, prefix: bytes, names: seq<bytes>): multiset<File> {
    if names == [] then multiset{}
    else
      var n := |names| - 1;
      UnderNames(files, prefix, names[..n]) + Under(files, SubPrefix(prefix, names[n]))
  }

  /** A file lies under a slash-free directory name exactly if that is its head. */
  lemma {:induction false} UnderSubPrefix(f: File, prefix: bytes, name: bytes)
    requires SLASH !in name
    ensures SubPrefix(prefix, name) <= f.path <==> IsNested(f, prefix) && Head(f, prefix) == name
    ensures SubPrefix(prefix, name) == prefix + name + Ascii("/")
  {
    if SubPrefix(prefix, name) <= f.path {
      var more := f.path[|prefix| + |name| + 1..];
      assert f.path == prefix + (name + [SLASH] + more);
      assert Rest(f, prefix) == name + [SLASH] + more;
      IndexAfter(name, SLASH, more);
      assert Rest(f, prefix)[|name|] == SLASH;
    } else if IsNested(f, prefix) {
      HeadUnder(f, prefix);
    }
  }

  lemma HeadUnder(f: File, prefix: bytes)
    requires IsNested(f, prefix)
    ensures SubPrefix(prefix, Head(f, prefix)) <= f.path
  {
    hide Index;
    var r, k := Rest(f, prefix), Index(Rest(f, prefix), SLASH);
    StartsWith(f.path, prefix, r, r[..k], r[k + 1..]);
  }

  lemma StartsWith(path: bytes, prefix: bytes, r: bytes, d: bytes, more: bytes)
    requires prefix <= path && r == path[|prefix|..] && |d| + 1 + |more| == |r|
    requires d == r[..|d|] && r[|d|] == SLASH
    ensures prefix + d + [SLASH] <= path
  {
    assert (prefix + d + [SLASH])[|prefix| + |d|] == path[|prefix| + |d|];
    forall k | |prefix| <= k < |prefix| + |d| ensures (prefix + d)[k] == path[k] {
      assert d[k - |prefix|] == r[k - |prefix|];
    }
  }

  ghost predicate Names(names: seq<bytes>) {
    && (forall i | 0 <= i < |names| :: SLASH !in names[i])
    && forall i, j | 0 <= i < j < |names| :: names[i] != names[j]
  }

  function Once(b: bool, f: File, g: File): nat {
    if b && f == g then 1 else 0
  }

  lemma UnderNext(files: seq<File>, f: File, prefix: bytes, g: File)
    ensures Under(files + [f], prefix)[g] == Under(files, prefix)[g] + Once(prefix <= f.path, f, g)
    ensures Direct(files + [f], prefix)[g] == Direct(files, prefix)[g] + Once(IsDirect(f, prefix), f, g)
  {
    assert (files + [f])[..|files|] == files;
  }

  lemma UnderNamesNext(files: seq<File>, prefix: bytes, names: seq<bytes>, name: bytes, g: File)
    ensures UnderNames(files, prefix, names + [name])[g] ==
      UnderNames(files, prefix, names)[g] + Under(files, SubPrefix(prefix, name))[g]
  {
    hide Under, SubPrefix;
    assert (names + [name])[..|names|] == names;
  }

  /** One more file joins the directory of its head and no other. */
  lemma {:induction false} JoinsOne(files: seq<File>, f: File, prefix: bytes, names: seq<bytes>, g: File)
    requires Names(names)
    ensures UnderNames(files + [f], prefix, names)[g]
         == UnderNames(files, prefix, names)[g] + Once(IsNested(f, prefix) && Head(f, prefix) in names, f, g)
    decreases |names|
  {
    hide Head, SubPrefix, Under, UnderNames, IsNested;
    if names == [] {
      NoNames(files, prefix, g);
      NoNames(files + [f], prefix, g);
    } else {
      var n := |names| - 1;
      var init, name := names[..n], names[n];
      JoinsOne(files, f, prefix, init, g);
      UnderSubPrefix(f, prefix, name);
      UnderNext(files, f, SubPrefix(prefix, name), g);
      assert names == init + [name] && name !in init;
      UnderNamesNext(files, prefix, init, name, g);
      UnderNamesNext(files + [f], prefix, init, name, g);
    }
  }

  lemma NoNames(files: seq<File>, prefix: bytes, g: File)
    ensures UnderNames(files, prefix, [])[g] == 0
  {
  }

  lemma {:induction false} NoFiles(prefix: bytes, names: seq<bytes>)
    ensures UnderNames([], prefix, names) == multiset{}
    decreases |names|
  {
    if names != [] { NoFiles(prefix, names[..|names| - 1]); }
  }

  /** The files under a prefix are its direct files and the files under each of its directories, once. */
  lemma Partition(files: seq<File>, prefix: bytes, names: seq<bytes>)
    requires Names(names)
    requires forall i | 0 <= i < |files| && IsNested(files[i], prefix) :: Head(files[i], prefix) in names
    ensures Under(files, prefix) == Direct(files, prefix) + UnderNames(files, prefix, names)
  {
    forall g ensures Under(files, prefix)[g] == (Direct(files, prefix) + UnderNames(files, prefix, names))[g] {
      CountUnder(files, prefix, names, g);
    }
  }

  lemma {:induction false} CountUnder(files: seq<File>, prefix: bytes, names: seq<bytes>, g: File)
    requires Names(names)
    requires forall i | 0 <= i < |files| && IsNested(files[i], prefix) :: Head(files[i], prefix) in names
    ensures Under(files, prefix)[g] == Direct(files, prefix)[g] + UnderNames(files, prefix, names)[g]
    decreases |files|
  {
    hide Head, Names, Under, Direct, UnderNames;
    if files == [] {
      NoFiles(prefix, names);
      NoFilesAtAll(prefix);
    } else {
      var n := |files| - 1;
      var init, f := files[..n], files[n];
      CountUnder(init, prefix, names, g);
      assert files == init + [f];
      UnderNext(init, f, prefix, g);
      JoinsOne(init, f, prefix, names, g);
    }
  }

  lemma NoFilesAtAll(prefix: bytes)
    ensures Under([], prefix) == Direct([], prefix) == multiset{}
  {
  }

  // ----- nested trees -----

  /** A tree entry with the subtree a directory entry points to. */
  datatype Node = Leaf(name: bytes, mode: nat, oid: bytes) | Dir(name: bytes, sub: seq<Node>)

  type Hash = bytes -> bytes

  function TreeId(h: Hash, content: bytes): bytes {
    OidOf(h, Tree, content)
  }

  function EntryOf(h: Hash, x: Node): TreeEntry
    decreases x
  {
    match x
    case Leaf(name, mode, oid) => TreeEntry(name, mode, oid)
    case Dir(name, sub) => TreeEntry(name, DIRECTORY, TreeId(h, Content(h, sub)))
  }

  function EntriesOf(h: Hash, xs: seq<Node>): (es: seq<TreeEntry>)
    ensures |es| == |xs| && forall i | 0 <= i < |xs| :: es[i] == EntryOf(h, xs[i])
    decreases xs, 0
  {
    seq(|xs|, i requires 0 <= i < |xs| => EntryOf(h, xs[i]))
  }

  /** The bytes of a tree object. */
  function Content(h: Hash, xs: seq<Node>): bytes
    decreases xs, 1
  {
    Print(EntriesOf(h, xs))
  }

  /** The contents of a tree and of all the trees under it. */
  function Contents(h: Hash, xs: seq<Node>): set<bytes>
    decreases xs, 1
  {
    {Content(h, xs)} + SubContents(h, xs)
  }

  function SubContents(h: Hash, xs: seq<Node>): set<bytes>
    decreases xs, 0
  {
    if xs == [] then {} else NodeContents(h, xs[0]) + SubContents(h, xs[1..])
  }

  function NodeContents(h: Hash, x: Node): set<bytes>
    decreases x
  {
    if x.Leaf? then {} else Contents(h, x.sub)
  }

  /** The files a tree holds, with their full paths. */
  function FilesIn(xs: seq<Node>, prefix: bytes): multiset<File> {
    if xs == [] then multiset{} else FilesOf(xs[0], prefix) + FilesIn(xs[1..], prefix)
  }

  function FilesOf(x: Node, prefix: bytes): multiset<File> {
    match x
    case Leaf(name, mode, oid) => multiset{File(prefix + name, mode, oid)}
    case Dir(name, sub) => FilesIn(sub, SubPrefix(prefix, name))
  }

  /** Names are slash-free C strings in strcmp order, directories are listed once and not empty. */
  ghost predicate Good(xs: seq<Node>) {
    (forall i | 0 <= i < |xs| :: GoodNode(xs[i])) && Fanout.SortedIds(NamesOf(xs)) && DirsOnce(xs)
  }

  ghost predicate DirsOnce(xs: seq<Node>) {
    forall i, j | 0 <= i < j < |xs| && xs[i].Dir? && xs[j].Dir? :: xs[i].name != xs[j].name
  }

  ghost predicate GoodNode(x: Node) {
    && SLASH !in x.name && 0 !in x.name
    && match x
       case Leaf(_, mode, oid) => mode < TWO32 && |oid| == ID_SIZE
       case Dir(_, sub) => sub != [] && Good(sub)
  }

  function NamesOf(xs: seq<Node>): (names: seq<bytes>)
    ensures |names| == |xs| && forall i | 0 <= i < |xs| :: names[i] == xs[i].name
  {
    seq(|xs|, i requires 0 <= i < |xs| => xs[i].name)
  }

  // ----- inserting an entry into a sorted tree -----

  function InsertNode(s: seq<Node>, k: nat, x: Node): (r: seq<Node>)
    requires k <= |s|
    ensures |r| == |s| + 1
    ensures forall i {:trigger r[i]} | 0 <= i < |r| :: r[i] == if i < k then s[i] else if i == k then x else s[i - 1]
  {
    s[..k] + [x] + s[k..]
  }

  lemma {:induction false} FilesAppend(a: seq<Node>, b: seq<Node>, prefix: bytes)
    ensures FilesIn(a + b, prefix) == FilesIn(a, prefix) + FilesIn(b, prefix)
  {
    hide FilesOf;
    if a == [] {
      assert a + b == b;
    } else {
      FilesAppend(a[1..], b, prefix);
      assert (a + b)[1..] == a[1..] + b;
    }
  }

  lemma {:induction false} FilesInsert(xs: seq<Node>, k: nat, x: Node, prefix: bytes)
    requires k <= |xs|
    ensures FilesIn(InsertNode(xs, k, x), prefix) == FilesIn(xs, prefix) + FilesOf(x, prefix)
  {
    hide FilesOf, FilesIn;
    FilesOne(x, prefix);
    FilesAppend(xs[..k], [x], prefix);
    FilesAppend(xs[..k] + [x], xs[k..], prefix);
    FilesAppend(xs[..k], xs[k..], prefix);
    assert xs == xs[..k] + xs[k..];
  }

  lemma FilesOne(x: Node, prefix: bytes)
    ensures FilesIn([x], prefix) == FilesOf(x, prefix)
  {
    hide FilesOf;
    assert [x][1..] == [];
  }

  lemma {:induction false} ContentsAppend(h: Hash, a: seq<Node>, b: seq<Node>)
    ensures SubContents(h, a + b) == SubContents(h, a) + SubContents(h, b)
  {
    hide NodeContents;
    if a == [] {
      assert a + b == b;
    } else {
      ContentsAppend(h, a[1..], b);
      assert (a + b)[1..] == a[1..] + b;
    }
  }

  lemma {:induction false} ContentsInsert(h: Hash, xs: seq<Node>, k: nat, x: Node)
    requires k <= |xs|
    ensures SubContents(h, InsertNode(xs, k, x)) == SubContents(h, xs) + NodeContents(h, x)
  {
    hide NodeContents, SubContents;
    ContentsOne(h, x);
    ContentsAppend(h, xs[..k], [x]);
    ContentsAppend(h, xs[..k] + [x], xs[k..]);
    ContentsAppend(h, xs[..k], xs[k..]);
    assert xs == xs[..k] + xs[k..];
  }

  lemma ContentsOne(h: Hash, x: Node)
    ensures SubContents(h, [x]) == NodeContents(h, x)
  {
    hide NodeContents;
    assert [x][1..] == [];
  }

  /** A name put after all that are not greater keeps the order. */
  lemma {:induction false} InsertName(names: seq<bytes>, k: nat, name: bytes, r: seq<bytes>)
    requires Fanout.SortedIds(names) && k <= |names| && |r| == |names| + 1
    requires forall i {:trigger r[i]} | 0 <= i < |r| ::
      r[i] == if i < k then names[i] else if i == k then name else names[i - 1]
    requires k > 0 ==> Lex.Compare(names[k - 1], name) <= 0
    requires forall j | k <= j < |names| :: Lex.Compare(names[j], name) > 0
    ensures Fanout.SortedIds(r)
  {
    hide Lex.Compare;
    forall i | 0 <= i < k ensures Lex.Compare(names[i], name) <= 0 {
      if i < k - 1 { Lex.Transitive(names[i], names[k - 1], name); }
    }
    forall j | k <= j < |names| ensures Lex.Compare(name, names[j]) <= 0 {
      Lex.Antisymmetric(name, names[j]);
    }
    forall i, j | 0 <= i < j < |r| ensures Lex.Compare(r[i], r[j]) <= 0 {
      if i != k && j != k {
        assert r[i] == names[if i < k then i else i - 1] && r[j] == names[if j < k then j else j - 1];
      }
    }
  }

  /** The directory is not in the tree yet. */
  ghost predicate NewDir(xs: seq<Node>, x: Node) {
    x.Dir? ==> forall i | 0 <= i < |xs| && xs[i].Dir? :: xs[i].name != x.name
  }

  lemma InsertDir(xs: seq<Node>, k: nat, x: Node, r: seq<Node>)
    requires DirsOnce(xs) && NewDir(xs, x) && k <= |xs| && |r| == |xs| + 1
    requires forall i {:trigger r[i]} | 0 <= i < |r| :: r[i] == if i < k then xs[i] else if i == k then x else xs[i - 1]
    ensures DirsOnce(r)
  {
    forall i, j | 0 <= i < j < |r| && r[i].Dir? && r[j].Dir? ensures r[i].name != r[j].name {
      var i', j' := if i < k then i else i - 1, if j < k then j else j - 1;
      if i != k { assert r[i] == xs[i']; }
      if j != k { assert r[j] == xs[j']; }
    }
  }

  lemma InsertGood(xs: seq<Node>, k: nat, x: Node, r: seq<Node>)
    requires Good(xs) && GoodNode(x) && NewDir(xs, x) && k <= |xs| && |r| == |xs| + 1
    requires forall i {:trigger r[i]} | 0 <= i < |r| :: r[i] == if i < k then xs[i] else if i == k then x else xs[i - 1]
    requires k > 0 ==> Lex.Compare(xs[k - 1].name, x.name) <= 0
    requires forall j | k <= j < |xs| :: Lex.Compare(xs[j].name, x.name) > 0
    ensures Good(r)
  {
    hide Lex.Compare, Fanout.SortedIds, GoodNode, DirsOnce, NewDir;
    InsertName(NamesOf(xs), k, x.name, NamesOf(r));
    InsertDir(xs, k, x, r);
  }

  /** fastgit_tree_add_entry: the entry is appended and the table sorted again. On a table already in order
      that is an insertion. */
  method AddEntry(h: Hash, es: seq<TreeEntry>, e: TreeEntry, ghost xs: seq<Node>, ghost x: Node, ghost prefix: bytes)
    returns (r: seq<TreeEntry>, ghost ys: seq<Node>)
    requires es == EntriesOf(h, xs) && e == EntryOf(h, x) && Good(xs) && GoodNode(x) && NewDir(xs, x)
    ensures multiset(r) == multiset(es) + multiset{e}
    ensures r == EntriesOf(h, ys) && Good(ys) && |ys| == |xs| + 1
    ensures forall i | 0 <= i < |ys| :: ys[i] in xs || ys[i] == x
    ensures SubContents(h, ys) == SubContents(h, xs) + NodeContents(h, x)
    ensures FilesIn(ys, prefix) == FilesIn(xs, prefix) + FilesOf(x, prefix)
  {
    hide Lex.Compare, Good, GoodNode, NewDir, NodeContents, SubContents, FilesIn, FilesOf, EntryOf, InsertNode;
    EntryNames(h, xs, x);
    var k := |es|;
    while k > 0 && Lex.Compare(es[k - 1].name, e.name) > 0
      invariant 0 <= k <= |es|
      invariant forall j | k <= j < |xs| :: Lex.Compare(xs[j].name, x.name) > 0
    {
      k := k - 1;
    }
    r, ys := es[..k] + [e] + es[k..], InsertNode(xs, k, x);
    InsertKeeps(es, k, e);
    InsertEntry(h, es, k, e, xs, x);
    InsertGood(xs, k, x, ys);
    ContentsInsert(h, xs, k, x);
    FilesInsert(xs, k, x, prefix);
  }

  lemma InsertKeeps(es: seq<TreeEntry>, k: nat, e: TreeEntry)
    requires k <= |es|
    ensures multiset(es[..k] + [e] + es[k..]) == multiset(es) + multiset{e}
  {
    assert es == es[..k] + es[k..];
  }

  lemma InsertEntry(h: Hash, es: seq<TreeEntry>, k: nat, e: TreeEntry, xs: seq<Node>, x: Node)
    requires es == EntriesOf(h, xs) && e == EntryOf(h, x) && k <= |es|
    ensures es[..k] + [e] + es[k..] == EntriesOf(h, InsertNode(xs, k, x))
  {
    hide EntryOf;
    var ys, r := InsertNode(xs, k, x), es[..k] + [e] + es[k..];
    forall i | 0 <= i < |r| ensures r[i] == EntryOf(h, ys[i]) {
    }
  }

  lemma EntryNames(h: Hash, xs: seq<Node>, x: Node)
    ensures EntryOf(h, x).name == x.name
    ensures forall i | 0 <= i < |xs| :: EntryOf(h, xs[i]).name == xs[i].name
  {
  }

  // ----- the object store -----

  type Store = map<bytes, Object>

  /** The object store keeps the first object written under an id. */
  function Put(h: Hash, store: Store, content: bytes): Store {
    if TreeId(h, content) in store then store else store[TreeId(h, content) := Object(Tree, content)]
  }

  /** Only trees with these contents were added, and each has its id in the store. */
  ghost predicate Grew(h: Hash, store: Store, store': Store, cs: set<bytes>) {
    && (forall k <- store :: k in store' && store'[k] == store[k])
    && (forall k <- store' :: k in store || exists c <- cs :: k == TreeId(h, c) && store'[k] == Object(Tree, c))
    && (forall c <- cs :: TreeId(h, c) in store')
  }

  /** The hash tells these contents apart, from each other and from what is stored already. */
  ghost predicate NoCollision(h: Hash, store: Store, cs: set<bytes>) {
    && (forall c, d | c in cs && d in cs && TreeId(h, c) == TreeId(h, d) :: c == d)
    && (forall c <- cs :: TreeId(h, c) in store ==> store[TreeId(h, c)] == Object(Tree, c))
  }

  ghost predicate Held(h: Hash, store: Store, cs: set<bytes>) {
    forall c <- cs :: TreeId(h, c) in store && store[TreeId(h, c)] == Object(Tree, c)
  }

  lemma GrewHeld(h: Hash, store: Store, store': Store, cs: set<bytes>)
    requires Grew(h, store, store', cs) && NoCollision(h, store, cs)
    ensures Held(h, store', cs)
  {
    hide TreeId;
  }

  lemma GrewThrough(h: Hash, a: Store, b: Store, c: Store, cs: set<bytes>, ds: set<bytes>)
    requires Grew(h, a, b, cs) && Grew(h, b, c, ds)
    ensures Grew(h, a, c, cs + ds)
  {
    hide TreeId;
  }

  lemma GrewPut(h: Hash, store: Store, content: bytes)
    ensures Grew(h, store, Put(h, store, content), {content})
  {
    hide TreeId;
  }

  // ----- writing -----

  ghost predicate FilesOk(files: seq<File>) {
    forall i | 0 <= i < |files| :: 0 !in files[i].path && files[i].mode < TWO32 && |files[i].oid| == ID_SIZE
  }

  function MaxPath(files: seq<File>): nat {
    if files == [] then 0
    else
      var m, n := MaxPath(files[1..]), |files[0].path|;
      if m > n then m else n
  }

  lemma {:induction false} PathFits(files: seq<File>, i: nat)
    requires i < |files|
    ensures |files[i].path| <= MaxPath(files)
  {
    if i > 0 { PathFits(files[1..], i - 1); }
  }

  lemma DirectNext(files: seq<File>, prefix: bytes, i: nat)
    requires i < |files|
    ensures Direct(files[..i + 1], prefix) ==
      Direct(files[..i], prefix) + if IsDirect(files[i], prefix) then multiset{files[i]} else multiset{}
    ensures Direct(files[..0], prefix) == multiset{}
  {
    assert files[..i + 1][..i] == files[..i];
  }

  /** The first pass: files directly under the prefix become entries, directories are collected once each. */
  method FirstPass(h: Hash, files: seq<File>, prefix: bytes)
    returns (es: seq<TreeEntry>, names: seq<bytes>, ghost xs: seq<Node>)
    requires FilesOk(files)
    ensures es == EntriesOf(h, xs) && Good(xs) && (forall x <- xs :: x.Leaf?)
    ensures FilesIn(xs, prefix) == Direct(files, prefix) && SubContents(h, xs) == {} && Names(names)
    ensures forall i | 0 <= i < |files| && IsNested(files[i], prefix) :: Head(files[i], prefix) in names
    ensures forall d <- names :: exists i ::
      0 <= i < |files| && IsNested(files[i], prefix) && Head(files[i], prefix) == d
  {
    hide Good, FilesIn, Direct, SubContents, EntryOf, Head;
    es, names, xs := [], [], [];
    NoNodes(h, prefix);
    assert files[..0] == [];
    NoFilesAtAll(prefix);
    var i := 0;
    while i < |files|
      invariant i <= |files| && es == EntriesOf(h, xs) && Good(xs) && (forall x <- xs :: x.Leaf?)
      invariant FilesIn(xs, prefix) == Direct(files[..i], prefix) && SubContents(h, xs) == {} && Names(names)
      invariant forall j | 0 <= j < i && IsNested(files[j], prefix) :: Head(files[j], prefix) in names
      invariant forall d <- names :: exists j :: 0 <= j < i && IsNested(files[j], prefix) && Head(files[j], prefix) == d
    {
      DirectNext(files, prefix, i);
      if prefix <= files[i].path {
        if SLASH !in Rest(files[i], prefix) {
          es, xs := AddFile(h, es, files[i], prefix, xs);
        } else {
          var d := Head(files[i], prefix);
          HeadIs(files[i], prefix);
          if d !in names { names := names + [d]; }
        }
      }
      i := i + 1;
    }
    assert files[..i] == files;
  }

  lemma HeadIs(f: File, prefix: bytes)
    requires IsNested(f, prefix)
    ensures SLASH !in Head(f, prefix)
  {
  }

  lemma NoNodes(h: Hash, prefix: bytes)
    ensures FilesIn([], prefix) == multiset{} && SubContents(h, []) == {} && Good([])
  {
  }

  method AddFile(h: Hash, es: seq<TreeEntry>, f: File, prefix: bytes, ghost xs: seq<Node>)
    returns (r: seq<TreeEntry>, ghost ys: seq<Node>)
    requires es == EntriesOf(h, xs) && Good(xs) && IsDirect(f, prefix) && (forall x <- xs :: x.Leaf?)
    requires 0 !in f.path && f.mode < TWO32 && |f.oid| == ID_SIZE
    ensures multiset(r) == multiset(es) + multiset{TreeEntry(Rest(f, prefix), f.mode, f.oid)}
    ensures r == EntriesOf(h, ys) && Good(ys) && (forall x <- ys :: x.Leaf?)
    ensures FilesIn(ys, prefix) == FilesIn(xs, prefix) + multiset{f} && SubContents(h, ys) == SubContents(h, xs)
  {
    hide Good, FilesIn, SubContents;
    var e := TreeEntry(Rest(f, prefix), f.mode, f.oid);
    ghost var x := Leaf(e.name, e.mode, e.oid);
    assert prefix + e.name == f.path;
    r, ys := AddEntry(h, es, e, xs, x, prefix);
  }

  /** The number of leaves decides whether anything is under a prefix. */
  lemma {:induction false} UnderSome(files: seq<File>, prefix: bytes, i: nat)
    requires i < |files| && prefix <= files[i].path
    ensures files[i] in Under(files, prefix)
    decreases |files|
  {
    var n := |files| - 1;
    if i < n {
      UnderSome(files[..n], prefix, i);
      assert files[..n][i] == files[i];
    }
  }

  /** The directory of a nested file: its prefix is longer, fits the file's path, and has the file under it. */
  lemma Deeper(files: seq<File>, prefix: bytes, i: nat)
    requires i < |files| && IsNested(files[i], prefix)
    ensures var sub := SubPrefix(prefix, Head(files[i], prefix));
      |prefix| < |sub| <= MaxPath(files) && Under(files, sub) != multiset{}
  {
    hide Head, Under;
    HeadUnder(files[i], prefix);
    PathFits(files, i);
    UnderSome(files, SubPrefix(prefix, Head(files[i], prefix)), i);
  }

  /** Names are parts of C strings. */
  lemma HeadIsString(f: File, prefix: bytes)
    requires IsNested(f, prefix) && 0 !in f.path
    ensures 0 !in Head(f, prefix) && SLASH !in Head(f, prefix)
  {
  }

  /** Writes the tree for a prefix: the direct files, then each directory recursively. The recursion ends
      because each nested prefix is longer and still the start of some path. */
  method WriteTreeRecursive(h: Hash, before: Store, files: seq<File>, prefix: bytes)
    returns (store: Store, oid: bytes, ghost xs: seq<Node>)
    requires FilesOk(files) && |prefix| <= MaxPath(files) && Under(files, prefix) != multiset{}
    requires forall content :: |TreeId(h, content)| == ID_SIZE
    ensures oid in store && forall k <- before :: k in store && store[k] == before[k]
    ensures xs != [] && Good(xs) && FilesIn(xs, prefix) == Under(files, prefix)
    ensures oid == TreeId(h, Content(h, xs)) && Grew(h, before, store, Contents(h, xs))
    decreases MaxPath(files) - |prefix|
  {
    hide Good, FilesIn, Direct, SubContents, EntriesOf, EntryOf, Head, Under, UnderNames, Grew, TreeId, SubPrefix;
    hide FilesOk, MaxPath, Put, Print;
    store := before;
    var es, names;
    es, names, xs := FirstPass(h, files, prefix);
    NoChange(h, before, xs);
    NothingListed(files, prefix, names);
    var i := 0;
    while i < |names|
      invariant i <= |names| && es == EntriesOf(h, xs) && Good(xs)
      invariant FilesIn(xs, prefix) == Direct(files, prefix) + UnderNames(files, prefix, names[..i])
      invariant Grew(h, before, store, SubContents(h, xs))
      invariant forall x <- xs :: x.Dir? ==> x.name in names[..i]
    {
      var name := names[i];
      DeeperName(files, prefix, names, i);
      ghost var sub;
      var subOid, grown;
      grown, subOid, sub := WriteTreeRecursive(h, store, files, SubPrefix(prefix, name));
      ghost var x := Dir(name, sub);
      NewName(xs, names, i, sub);
      DirEntry(h, name, sub, prefix);
      GrewThrough(h, before, store, grown, SubContents(h, xs), Contents(h, sub));
      store := grown;
      es, xs := AddEntry(h, es, TreeEntry(name, DIRECTORY, subOid), xs, x, prefix);
      NextNames(files, prefix, names, i);
      i := i + 1;
    }
    assert names[..i] == names;
    Partition(files, prefix, names);
    var content := PrintContent(es);
    oid := TreeId(h, content);
    GrewPut(h, store, content);
    GrewThrough(h, before, store, Put(h, store, content), SubContents(h, xs), {content});
    store := Put(h, store, content);
    assert SubContents(h, xs) + {content} == Contents(h, xs);
    NotEmpty(xs, prefix);
    OnlyGrown(h, before, store, Contents(h, xs), content);
  }

  lemma OnlyGrown(h: Hash, before: Store, store: Store, cs: set<bytes>, content: bytes)
    requires Grew(h, before, store, cs) && content in cs
    ensures TreeId(h, content) in store && forall k <- before :: k in store && store[k] == before[k]
  {
    hide TreeId;
  }

  lemma NoChange(h: Hash, store: Store, xs: seq<Node>)
    requires SubContents(h, xs) == {}
    ensures Grew(h, store, store, SubContents(h, xs))
  {
  }

  lemma NothingListed(files: seq<File>, prefix: bytes, names: seq<bytes>)
    ensures UnderNames(files, prefix, names[..0]) == multiset{}
  {
  }

  lemma NextNames(files: seq<File>, prefix: bytes, names: seq<bytes>, i: nat)
    requires i < |names|
    ensures UnderNames(files, prefix, names[..i + 1]) ==
      UnderNames(files, prefix, names[..i]) + Under(files, SubPrefix(prefix, names[i]))
    ensures names[..i + 1] == names[..i] + [names[i]]
  {
    hide Under;
    assert names[..i + 1][..i] == names[..i];
  }

  lemma DeeperName(files: seq<File>, prefix: bytes, names: seq<bytes>, i: nat)
    requires FilesOk(files) && i < |names|
    requires forall d <- names :: exists j ::
      0 <= j < |files| && IsNested(files[j], prefix) && Head(files[j], prefix) == d
    ensures var sub := SubPrefix(prefix, names[i]);
      |prefix| < |sub| <= MaxPath(files) && Under(files, sub) != multiset{}
    ensures 0 !in names[i] && SLASH !in names[i]
  {
    hide Head, Under, SubPrefix;
    assert names[i] in names;
    var j :| 0 <= j < |files| && IsNested(files[j], prefix) && Head(files[j], prefix) == names[i];
    Deeper(files, prefix, j);
    HeadIsString(files[j], prefix);
  }

  lemma NewName(xs: seq<Node>, names: seq<bytes>, i: nat, sub: seq<Node>)
    requires Names(names) && i < |names| && forall x <- xs :: x.Dir? ==> x.name in names[..i]
    ensures NewDir(xs, Dir(names[i], sub))
  {
    forall j | 0 <= j < |xs| && xs[j].Dir? ensures xs[j].name != names[i] {
      assert xs[j] in xs;
    }
  }

  lemma DirEntry(h: Hash, name: bytes, sub: seq<Node>, prefix: bytes)
    requires 0 !in name && SLASH !in name && sub != [] && Good(sub)
    ensures GoodNode(Dir(name, sub))
      && EntryOf(h, Dir(name, sub)) == TreeEntry(name, DIRECTORY, TreeId(h, Content(h, sub)))
    ensures FilesOf(Dir(name, sub), prefix) == FilesIn(sub, SubPrefix(prefix, name))
    ensures NodeContents(h, Dir(name, sub)) == Contents(h, sub)
  {
  }

  lemma NotEmpty(xs: seq<Node>, prefix: bytes)
    ensures FilesIn(xs, prefix) != multiset{} ==> xs != []
  {
  }
}
