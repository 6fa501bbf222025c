// The packed reproducer: a directory tree written as one byte stream, and the parser that rebuilds it.
module Archive {
  import opened Bytes

  type Path = seq<Byte>

  const SLASH: Byte := 0x2f

  /** Special stands for everything that is neither a directory nor a regular file. */
  datatype Node = Dir | File(content: seq<Byte>) | Special

  /** The entries below a root directory, by relative path. */
  type Tree = map<Path, Node>

  datatype Compression = Compression(compress: seq<Byte> -> seq<Byte>, uncompress: seq<Byte> -> seq<Byte>)

  ghost predicate Lossless(c: Compression) {
    forall d: seq<Byte> :: c.uncompress(c.compress(d)) == d
  }

  /** The containing directory; the root is the empty path. */
  function Parent(p: Path): Path {
    if p == [] then [] else if p[|p| - 1] == SLASH then p[..|p| - 1] else Parent(p[..|p| - 1])
  }

  predicate IsDirectory(t: Tree, p: Path) {
    p == [] || (p in t && t[p].Dir?)
  }

  /** Every entry has a name and lies in a directory of the tree; all lengths fit 64 bits. */
  ghost predicate IsTree(c: Compression, t: Tree) {
    && [] !in t
    && (forall p :: p in t ==> IsDirectory(t, Parent(p)))
    && (forall p :: p in t ==> |p| <= U64_MAX && (t[p].File? ==> |c.compress(t[p].content)| <= U64_MAX))
  }

  /** The walk visits every entry once and a directory before what it contains. */
  ghost predicate ParentsFirst(t: Tree, walk: seq<Path>) {
    && (forall i, j :: 0 <= i < j < |walk| ==> walk[i] != walk[j])
    && (forall p :: p in t <==> p in walk)
    && (forall i :: 0 <= i < |walk| ==> Parent(walk[i]) == [] || Parent(walk[i]) in walk[..i])
  }

  // ---- Writing ----

  function Entry(c: Compression, p: Path, node: Node): seq<Byte> {
    match node
    case Dir => [0] + ToLE(|p|, 8) + p
    case File(content) =>
      var packed := c.compress(content);
      [1] + ToLE(|p|, 8) + p + ToLE(|packed|, 8) + packed
    case Special => []
  }

  /** How an entry is laid out: kind 0 for a directory and 1 for a file, and 64-bit lengths before the path and
      the compressed contents; anything else leaves no trace. */
  lemma EntryLayout(c: Compression, p: Path, content: seq<Byte>)
    requires |p| <= U64_MAX && |c.compress(content)| <= U64_MAX
    ensures var dir := Entry(c, p, Dir);
            |dir| == 9 + |p| && dir[0] == 0 && FromLE(dir[1..9]) == |p| && dir[9..] == p
    ensures var file, n := Entry(c, p, File(content)), 9 + |p|;
            && |file| == n + 8 + |c.compress(content)| && file[0] == 1 && FromLE(file[1..9]) == |p| && file[9..n] == p
            && FromLE(file[n..n + 8]) == |c.compress(content)| && file[n + 8..] == c.compress(content)
    ensures Entry(c, p, Special) == []
  {
    hide FromLE, ToLE;
    var packed := c.compress(content);
    U64RoundTrip(|p|);
    U64RoundTrip(|packed|);
    var dir, file, n := Entry(c, p, Dir), Entry(c, p, File(content)), 9 + |p|;
    assert dir[1..9] == ToLE(|p|, 8) && dir[9..] == p;
    assert file[1..9] == ToLE(|p|, 8) && file[9..n] == p;
    assert file[n..n + 8] == ToLE(|packed|, 8) && file[n + 8..] == packed;
  }

  predicate Within(t: Tree, walk: seq<Path>) {
    forall i :: 0 <= i < |walk| ==> walk[i] in t
  }

  function Entries(c: Compression, t: Tree, walk: seq<Path>): seq<Byte>
    requires Within(t, walk)
  {
    if walk == [] then [] else Entry(c, walk[0], t[walk[0]]) + Entries(c, t, walk[1..])
  }

  lemma {:induction false} EntriesAppend(c: Compression, t: Tree, walk: seq<Path>, p: Path)
    requires p in t && Within(t, walk)
    ensures Within(t, walk + [p])
    ensures Entries(c, t, walk + [p]) == Entries(c, t, walk) + Entry(c, p, t[p])
  {
    hide Entry;
    if walk == [] {
      assert (walk + [p])[1..] == [];
    } else {
      EntriesAppend(c, t, walk[1..], p);
      assert (walk + [p])[1..] == walk[1..] + [p];
    }
  }

  /** The archive writer of `pack`: a version byte, then one entry per visited path. */
  method WriteArchive(c: Compression, t: Tree, walk: seq<Path>) returns (os: seq<Byte>)
    requires Within(t, walk)
    ensures os == [0] + Entries(c, t, walk)
  {
    hide Entry;
    os := [0];
    for i := 0 to |walk|
      invariant os == [0] + Entries(c, t, walk[..i])
    {
      var entry := WriteEntry(c, walk[i], t[walk[i]]);
      EntriesAppend(c, t, walk[..i], walk[i]);
      assert walk[..i + 1] == walk[..i] + [walk[i]];
      os := os + entry;
    }
    assert walk[..|walk|] == walk;
  }

  method WriteEntry(c: Compression, pathStr: Path, node: Node) returns (os: seq<Byte>)
    ensures os == Entry(c, pathStr, node)
  {
    os := [];
    if node.Dir? {
      os := [0];
      os := os + ToLE(|pathStr|, 8);
      os := os + pathStr;
    } else if node.File? {
      os := [1];
      os := os + ToLE(|pathStr|, 8);
      os := os + pathStr;
      var compBuf := c.compress(node.content);
      os := os + ToLE(|compBuf|, 8);
      os := os + compBuf;
    }
  }

  // ---- Parsing ----

  /** OutOfBounds stands for reading past the mapped file: the code does not check, and its cursor then never
      meets the end. The last two are exceptions of the file system library. */
  datatype Error = UnknownVersion | OutOfBounds | NoParent | NotADirectory

  datatype Result<+T> = Ok(value: T) | Err(error: Error)

  /** fs::create_directory below the output: the parent must exist, an existing directory stays. */
  function CreateDirectory(t: Tree, p: Path): Result<Tree> {
    if IsDirectory(t, p) then Ok(t)
    else if p in t then Err(NotADirectory)
    else if !IsDirectory(t, Parent(p)) then Err(NoParent)
    else Ok(t[p := Dir])
  }

  /** An output stream that cannot be opened swallows what is written to it. */
  function WriteFile(t: Tree, p: Path, content: seq<Byte>): Tree {
    if !IsDirectory(t, p) && IsDirectory(t, Parent(p)) then t[p := File(content)] else t
  }

  /** A 64-bit length followed by that many bytes. */
  function Sized(s: seq<Byte>): (r: Result<(seq<Byte>, seq<Byte>)>)
    ensures r.Ok? ==> |r.value.1| < |s|
  {
    if |s| < 8 then Err(OutOfBounds)
    else
      var size := FromLE(s[..8]);
      if |s| - 8 < size then Err(OutOfBounds) else Ok((s[8..8 + size], s[8 + size..]))
  }

  /** The entries in s, applied to the tree t; unknown kinds are skipped byte by byte. */
  function Parse(c: Compression, s: seq<Byte>, t: Tree): Result<Tree>
    decreases |s|
  {
    if s == [] then Ok(t)
    else if s[0] == 0 then
      match Sized(s[1..])
      case Err(e) => Err(e)
      case Ok((path, rest)) =>
        (match CreateDirectory(t, path)
         case Err(e) => Err(e)
         case Ok(t') => Parse(c, rest, t'))
    else if s[0] == 1 then
      match Sized(s[1..])
      case Err(e) => Err(e)
      case Ok((path, rest)) =>
        (match Sized(rest)
         case Err(e) => Err(e)
         case Ok((packed, rest')) => Parse(c, rest', WriteFile(t, path, c.uncompress(packed))))
    else Parse(c, s[1..], t)
  }

  /** The length and the bytes at a cursor. */
  method ReadSized(mapping: seq<Byte>, mapIt: nat) returns (bytes: seq<Byte>, next: nat, ok: bool)
    requires mapIt <= |mapping|
    ensures ok <==> Sized(mapping[mapIt..]).Ok?
    ensures ok ==> mapIt < next <= |mapping| && Sized(mapping[mapIt..]) == Ok((bytes, mapping[next..]))
    ensures !ok ==> Sized(mapping[mapIt..]) == Err(OutOfBounds)
  {
    bytes, next, ok := [], mapIt, false;
    if |mapping| - mapIt < 8 { return; }
    var size := FromLE(mapping[mapIt..mapIt + 8]);
    assert mapping[mapIt..][..8] == mapping[mapIt..mapIt + 8];
    next := mapIt + 8;
    if |mapping| - next < size { return; }
    bytes := mapping[next..next + size];
    assert mapping[mapIt..][8..8 + size] == bytes;
    next := next + size;
    assert mapping[mapIt..][8 + size..] == mapping[next..];
    ok := true;
  }

  /** `parseV0`: the cursor moves over the mapped file while the tree grows. */
  method ParseV0(c: Compression, mapping: seq<Byte>) returns (r: Result<Tree>)
    requires mapping != []
    ensures r == Parse(c, mapping[1..], map[])
  {
    var mapIt, tree: Tree := 1, map[];
    while mapIt != |mapping|
      invariant 1 <= mapIt <= |mapping|
      invariant Parse(c, mapping[mapIt..], tree) == Parse(c, mapping[1..], map[])
      decreases |mapping| - mapIt
    {
      var kind := mapping[mapIt];
      assert mapping[mapIt..][1..] == mapping[mapIt + 1..];
      mapIt := mapIt + 1;
      if kind == 0 {
        var path, next, ok := ReadSized(mapping, mapIt);
        if !ok { return Err(OutOfBounds); }
        mapIt := next;
        match CreateDirectory(tree, path) {
          case Err(e) => return Err(e);
          case Ok(tree') => tree := tree';
        }
      } else if kind == 1 {
        var path, next, ok := ReadSized(mapping, mapIt);
        if !ok { return Err(OutOfBounds); }
        mapIt := next;
        var packed, next', ok' := ReadSized(mapping, mapIt);
        if !ok' { return Err(OutOfBounds); }
        mapIt := next';
        tree := WriteFile(tree, path, c.uncompress(packed));
      }
    }
    r := Ok(tree);
  }

  // ---- Archives whose lengths lie inside the file ----

  /** From here on every length field, and what it announces, lies inside the file. */
  predicate Framed(s: seq<Byte>)
    decreases |s|
  {
    if s == [] then true
    else if s[0] == 0 then Sized(s[1..]).Ok? && Framed(Sized(s[1..]).value.1)
    else if s[0] == 1 then
      Sized(s[1..]).Ok? && Sized(Sized(s[1..]).value.1).Ok? && Framed(Sized(Sized(s[1..]).value.1).value.1)
    else Framed(s[1..])
  }

  /** The output directory in which every directory entry of the archive finds itself present already. */
  function AllThere(s: seq<Byte>): (t: Tree)
    ensures forall p :: p in t ==> t[p].Dir?
    decreases |s|
  {
    if s == [] then map[]
    else if s[0] == 0 then
      match Sized(s[1..])
      case Err(_) => map[]
      case Ok((path, rest)) => AllThere(rest)[path := Dir]
    else if s[0] == 1 then
      match Sized(s[1..])
      case Err(_) => map[]
      case Ok((_, rest)) => (match Sized(rest) case Err(_) => map[] case Ok((_, rest')) => AllThere(rest'))
    else AllThere(s[1..])
  }

  lemma {:induction false} FramedStaysInside(c: Compression, s: seq<Byte>, t: Tree)
    requires Framed(s)
    ensures Parse(c, s, t) != Err(OutOfBounds)
    decreases |s|
  {
    hide CreateDirectory, WriteFile, Sized;
    if s == [] {
    } else if s[0] == 0 {
      var (path, rest) := Sized(s[1..]).value;
      DirectoryErrors(t, path);
      var made := CreateDirectory(t, path);
      if made.Ok? { FramedStaysInside(c, rest, made.value); }
    } else if s[0] == 1 {
      var (path, rest) := Sized(s[1..]).value;
      var (packed, rest') := Sized(rest).value;
      FramedStaysInside(c, rest', WriteFile(t, path, c.uncompress(packed)));
    } else {
      FramedStaysInside(c, s[1..], t);
    }
  }

  lemma DirectoryErrors(t: Tree, p: Path)
    ensures CreateDirectory(t, p) != Err(OutOfBounds)
  {
  }

  predicate Covers(t: Tree, dirs: Tree) {
    forall p :: p in dirs ==> p in t && t[p].Dir?
  }

  /** Where all its directories are present already, an archive with a bad length is read past its end. */
  lemma {:induction false} UnframedRunsOut(c: Compression, s: seq<Byte>, t: Tree)
    requires !Framed(s) && Covers(t, AllThere(s))
    ensures Parse(c, s, t) == Err(OutOfBounds)
    decreases |s|
  {
    hide Sized;
    SizedErrors(s);
    if s[0] == 0 {
      if Sized(s[1..]).Ok? {
        var (path, rest) := Sized(s[1..]).value;
        assert path in AllThere(s);
        UnframedRunsOut(c, rest, t);
      }
    } else if s[0] == 1 {
      if Sized(s[1..]).Ok? {
        var (path, rest) := Sized(s[1..]).value;
        SizedFails(rest);
        if Sized(rest).Ok? {
          var (packed, rest') := Sized(rest).value;
          UnframedRunsOut(c, rest', WriteFile(t, path, c.uncompress(packed)));
        }
      }
    } else {
      UnframedRunsOut(c, s[1..], t);
    }
  }

  lemma SizedFails(s: seq<Byte>)
    ensures Sized(s).Err? ==> Sized(s) == Err(OutOfBounds)
  {
  }

  lemma SizedErrors(s: seq<Byte>)
    ensures s != [] && Sized(s[1..]).Err? ==> Sized(s[1..]) == Err(OutOfBounds)
  {
  }

  /** Whatever lies in the output directory, parsing stays inside the file exactly when all lengths do. */
  lemma InBoundsExactly(c: Compression, s: seq<Byte>)
    ensures (forall t :: Parse(c, s, t) != Err(OutOfBounds)) <==> Framed(s)
  {
    hide Parse;
    if Framed(s) {
      forall t ensures Parse(c, s, t) != Err(OutOfBounds) {
        FramedStaysInside(c, s, t);
      }
    } else {
      UnframedRunsOut(c, s, AllThere(s));
    }
  }

  /** What pack writes has its lengths inside the file. */
  lemma {:induction false} PackedIsFramed(c: Compression, t: Tree, walk: seq<Path>)
    requires IsTree(c, t) && Within(t, walk)
    ensures Framed(Entries(c, t, walk))
  {
    if walk != [] {
      PackedIsFramed(c, t, walk[1..]);
      EntryIsFramed(c, walk[0], t[walk[0]], Entries(c, t, walk[1..]));
    }
  }

  lemma EntryIsFramed(c: Compression, p: Path, node: Node, rest: seq<Byte>)
    requires Framed(rest) && |p| <= U64_MAX && (node.File? ==> |c.compress(node.content)| <= U64_MAX)
    ensures Framed(Entry(c, p, node) + rest)
  {
    hide Sized, ToLE;
    match node {
      case Dir =>
        SizedRoundTrip(p, rest);
        assert (Entry(c, p, node) + rest)[1..] == ToLE(|p|, 8) + p + rest;
      case File(content) =>
        var packed := c.compress(content);
        FileEntry(c, p, content, rest);
        SizedRoundTrip(p, ToLE(|packed|, 8) + packed + rest);
        SizedRoundTrip(packed, rest);
      case Special =>
        assert Entry(c, p, node) + rest == rest;
    }
  }

  /** `unpack`: only version 0 is understood. */
  method Unpack(c: Compression, mapping: seq<Byte>) returns (r: Result<Tree>)
    requires mapping != []
    ensures r == if mapping[0] == 0 then Parse(c, mapping[1..], map[]) else Err(UnknownVersion)
  {
    var version := mapping[0];
    if version == 0 {
      r := ParseV0(c, mapping);
    } else {
      r := Err(UnknownVersion);
    }
  }

  // ---- Round trip ----

  lemma SizedRoundTrip(bytes: seq<Byte>, rest: seq<Byte>)
    requires |bytes| <= U64_MAX
    ensures Sized(ToLE(|bytes|, 8) + bytes + rest) == Ok((bytes, rest))
  {
    var s := ToLE(|bytes|, 8) + bytes + rest;
    assert s[..8] == ToLE(|bytes|, 8);
    U64RoundTrip(|bytes|);
    SliceOfConcat(ToLE(|bytes|, 8), bytes, rest);
  }

  /** What a visited node becomes in the rebuilt tree. */
  function Rebuild(t: Tree, p: Path, node: Node): Tree {
    if node.Special? then t else t[p := node]
  }

  lemma ParseDir(c: Compression, p: Path, rest: seq<Byte>, t: Tree)
    requires p != [] && p !in t && IsDirectory(t, Parent(p)) && |p| <= U64_MAX
    ensures Parse(c, Entry(c, p, Dir) + rest, t) == Parse(c, rest, t[p := Dir])
  {
    hide Sized, ToLE;
    var s := Entry(c, p, Dir) + rest;
    assert s[1..] == ToLE(|p|, 8) + p + rest;
    SizedRoundTrip(p, rest);
  }

  lemma ParseFile(c: Compression, p: Path, content: seq<Byte>, rest: seq<Byte>, t: Tree)
    requires Lossless(c) && p != [] && p !in t && IsDirectory(t, Parent(p)) && |p| <= U64_MAX
    requires |c.compress(content)| <= U64_MAX
    ensures Parse(c, Entry(c, p, File(content)) + rest, t) == Parse(c, rest, t[p := File(content)])
  {
    hide Sized, ToLE, IsDirectory;
    var packed := c.compress(content);
    var tail := ToLE(|packed|, 8) + packed + rest;
    FileEntry(c, p, content, rest);
    SizedRoundTrip(p, tail);
    SizedRoundTrip(packed, rest);
    hide Entry, Parent, Lossless, WriteFile;
    assert WriteFile(t, p, content) == t[p := File(content)] by { WritesNew(t, p, content); }
    assert c.uncompress(packed) == content by { Restores(c, content); }
  }

  lemma FileEntry(c: Compression, p: Path, content: seq<Byte>, rest: seq<Byte>)
    ensures var s, packed := Entry(c, p, File(content)) + rest, c.compress(content);
            && s != [] && s[0] == 1 && s[1..] == ToLE(|p|, 8) + p + (ToLE(|packed|, 8) + packed + rest)
  {
    var packed := c.compress(content);
    Regroup(ToLE(|p|, 8), p, ToLE(|packed|, 8), packed, rest);
    hide ToLE;
  }

  lemma Regroup(b: seq<Byte>, c: seq<Byte>, d: seq<Byte>, e: seq<Byte>, rest: seq<Byte>)
    ensures [1] + b + c + d + e + rest == [1] + (b + c + (d + e + rest))
    ensures ([1] + b + c + d + e + rest)[1..] == b + c + (d + e + rest)
  {
  }

  lemma WritesNew(t: Tree, p: Path, content: seq<Byte>)
    requires p != [] && p !in t && IsDirectory(t, Parent(p))
    ensures WriteFile(t, p, content) == t[p := File(content)]
  {
    hide Parent;
  }

  lemma Restores(c: Compression, content: seq<Byte>)
    requires Lossless(c)
    ensures c.uncompress(c.compress(content)) == content
  {
  }

  /** Parsing one entry adds exactly that node, if its parent is there already. */
  lemma ParseEntry(c: Compression, p: Path, node: Node, rest: seq<Byte>, t: Tree)
    requires Lossless(c) && p != [] && p !in t && IsDirectory(t, Parent(p)) && |p| <= U64_MAX
    requires node.File? ==> |c.compress(node.content)| <= U64_MAX
    ensures Parse(c, Entry(c, p, node) + rest, t) == Parse(c, rest, Rebuild(t, p, node))
  {
    hide Parse;
    match node {
      case Dir => ParseDir(c, p, rest, t);
      case File(content) => ParseFile(c, p, content, rest, t);
      case Special => assert Entry(c, p, node) + rest == rest;
    }
  }

  /** The part of the tree visited by a walk, without the special nodes. */
  function Visited(t: Tree, walk: seq<Path>): Tree {
    map p | p in walk && p in t && !t[p].Special? :: t[p]
  }

  lemma {:induction false} ParseWalk(c: Compression, t: Tree, walk: seq<Path>, k: nat)
    requires Lossless(c) && IsTree(c, t) && ParentsFirst(t, walk) && k <= |walk|
    ensures Parse(c, Entries(c, t, walk[k..]), Visited(t, walk[..k])) == Ok(Visited(t, walk))
    decreases |walk| - k
  {
    hide Entry;
    if k == |walk| {
      assert walk[..k] == walk && walk[k..] == [];
    } else {
      hide Parse;
      var p, before := walk[k], Visited(t, walk[..k]);
      NextIsNew(c, t, walk, k);
      VisitNext(t, walk, k);
      ParseEntry(c, p, t[p], Entries(c, t, walk[k + 1..]), before);
      assert walk[k..][1..] == walk[k + 1..];
      ParseWalk(c, t, walk, k + 1);
    }
  }

  /** The next visited path is new and its parent is rebuilt already. */
  lemma NextIsNew(c: Compression, t: Tree, walk: seq<Path>, k: nat)
    requires IsTree(c, t) && ParentsFirst(t, walk) && k < |walk|
    ensures walk[k] in t && walk[k] != [] && walk[k] !in walk[..k]
    ensures IsDirectory(Visited(t, walk[..k]), Parent(walk[k]))
  {
    hide Parent;
    var p := walk[k];
    assert p in walk;
    assert IsDirectory(t, Parent(p));
    assert forall i :: 0 <= i < k ==> walk[i] != p;
  }

  /** Visiting one more path extends the rebuilt tree by its node. */
  lemma VisitNext(t: Tree, walk: seq<Path>, k: nat)
    requires k < |walk| && walk[k] in t
    ensures Rebuild(Visited(t, walk[..k]), walk[k], t[walk[k]]) == Visited(t, walk[..k + 1])
  {
    assert walk[..k + 1] == walk[..k] + [walk[k]];
    assert forall q :: q in walk[..k + 1] <==> q in walk[..k] || q == walk[k];
  }

  /** With special nodes in the tree, exactly those are missing afterwards. */
  lemma SpecialNodesAreDropped(c: Compression, t: Tree, walk: seq<Path>)
    requires Lossless(c) && IsTree(c, t) && ParentsFirst(t, walk)
    ensures Parse(c, Entries(c, t, walk), map[]) == Ok(map p | p in t && !t[p].Special? :: t[p])
  {
    hide Parse, Entries, Parent;
    ParseWalk(c, t, walk, 0);
    assert walk[0..] == walk && Visited(t, walk[..0]) == map[];
    assert Visited(t, walk) == map p | p in t && !t[p].Special? :: t[p];
  }

  /** Unpacking what pack wrote rebuilds exactly the tree, whichever parents-first walk was taken. */
  lemma ArchiveRoundTrip(c: Compression, t: Tree, walk: seq<Path>)
    requires Lossless(c) && IsTree(c, t) && ParentsFirst(t, walk)
    requires forall p :: p in t ==> !t[p].Special?
    ensures Parse(c, Entries(c, t, walk), map[]) == Ok(t)
  {
    SpecialNodesAreDropped(c, t, walk);
    assert t == map p | p in t && !t[p].Special? :: t[p];
  }

  /** Packing and unpacking as the two commands run them. */
  method PackThenUnpack(c: Compression, t: Tree, walk: seq<Path>) returns (r: Result<Tree>)
    requires Lossless(c) && IsTree(c, t) && ParentsFirst(t, walk)
    ensures r == Ok(map p | p in t && !t[p].Special? :: t[p])
  {
    var os := WriteArchive(c, t, walk);
    r := Unpack(c, os);
    assert os[1..] == Entries(c, t, walk);
    SpecialNodesAreDropped(c, t, walk);
  }
}
