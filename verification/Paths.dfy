/** Paths as walks through directory maps. */
module Paths {
  import opened Sectors
  import opened Directory
  import opened FileSystem
  import opened Operations

  const MAX_COMPONENT := 255

  /** What a path denotes: nothing, a directory itself (the path ended in a slash or was empty),
      or a name in a directory. */
  datatype Place = Missing | Itself(dc: nat) | Named(dc: nat, name: Name)

  /** The 8.3 name of a path component; the driver's component buffer holds 255 bytes. */
  function CompName(comp: seq<Byte>): Name {
    To83(comp[..if |comp| < MAX_COMPONENT then |comp| else MAX_COMPONENT])
  }

  /** The subdirectory that a name is bound to, if it is bound to one. */
  ghost predicate HasSubdir(m: Model, dc: nat, n: Name) {
    && n in NamesIn(m, dc)
    && Slot(dc, NamesIn(m, dc)[n]) in m.ents
    && IsDir(m.ents[Slot(dc, NamesIn(m, dc)[n])])
  }

  ghost function Subdir(m: Model, dc: nat, n: Name): nat
    requires HasSubdir(m, dc, n)
  {
    FirstCluster(m.ents[Slot(dc, NamesIn(m, dc)[n])])
  }

  /** Walk a path from directory dc; empty components are passed over. */
  ghost function Resolve(m: Model, dc: nat, path: seq<Byte>): Place
    decreases |path|
  {
    var i := IndexOf(path, SLASH);
    if i == |path| then
      if path == [] then Itself(dc) else Named(dc, CompName(path))
    else if i == 0 then Resolve(m, dc, path[1..])
    else if HasSubdir(m, dc, CompName(path[..i])) then
      Resolve(m, Subdir(m, dc, CompName(path[..i])), path[i + 1..])
    else Missing
  }

  lemma ResolveSkip(m: Model, dc: nat, path: seq<Byte>, pos: nat)
    requires pos < |path| && path[pos] == SLASH
    ensures Resolve(m, dc, path[pos..]) == Resolve(m, dc, path[pos + 1..])
  {
    assert path[pos..][1..] == path[pos + 1..];
  }

  lemma ResolveLast(m: Model, dc: nat, path: seq<Byte>, pos: nat)
    requires pos <= |path| && pos + IndexOf(path[pos..], SLASH) == |path|
    ensures Resolve(m, dc, path[pos..]) == if pos == |path| then Itself(dc) else Named(dc, CompName(path[pos..]))
  {
  }

  lemma ResolveInto(m: Model, dc: nat, path: seq<Byte>, pos: nat, len: nat)
    requires 0 < len && pos + len < |path| && len == IndexOf(path[pos..], SLASH)
    ensures var n := CompName(path[pos..pos + len]);
            Resolve(m, dc, path[pos..]) ==
              if HasSubdir(m, dc, n) then Resolve(m, Subdir(m, dc, n), path[pos + len + 1..]) else Missing
  {
    hide HasSubdir, Subdir, CompName;
    assert path[pos..][..len] == path[pos..pos + len];
    assert path[pos..][len + 1..] == path[pos + len + 1..];
  }

  datatype Option<T> = None | Some(value: T)

  /** The slot a path is bound to. */
  ghost function SlotAt(m: Model, path: seq<Byte>): Option<Slot> {
    match Resolve(m, 0, path)
    case Named(dc, n) => if n in NamesIn(m, dc) then Some(Slot(dc, NamesIn(m, dc)[n])) else None
    case _ => None
  }

  /** The slot of the file (not directory) a path is bound to. */
  ghost function FileAt(m: Model, path: seq<Byte>): Option<Slot> {
    var s := SlotAt(m, path);
    if s.Some? && s.value in m.ents && !IsDir(m.ents[s.value]) then s else None
  }

  lemma FileAtPlace(m: Model, path: seq<Byte>)
    ensures SlotAt(m, path) ==
      match Resolve(m, 0, path)
      case Named(dc, n) => if n in NamesIn(m, dc) then Some(Slot(dc, NamesIn(m, dc)[n])) else None
      case _ => None
    ensures FileAt(m, path) ==
      if SlotAt(m, path).Some? && SlotAt(m, path).value in m.ents && !IsDir(m.ents[SlotAt(m, path).value])
      then SlotAt(m, path) else None
  {
  }

  // ----- what paths mean, byte by byte -----

  /** A component of at most 255 bytes is taken whole, of a longer one 255 bytes. */
  lemma CompNameCut(comp: seq<Byte>)
    ensures |comp| <= 255 ==> CompName(comp) == To83(comp)
    ensures |comp| > 255 ==> CompName(comp) == To83(comp[..255])
  {
    assert comp[..|comp|] == comp;
  }

  lemma NoSlash(c: seq<Byte>, rest: seq<Byte>)
    requires 47 !in c
    ensures IndexOf(c, SLASH) == |c| && IndexOf(c + [47] + rest, SLASH) == |c|
  {
    var p := c + [47] + rest;
    forall k | 0 <= k < |c| ensures p[k] != 47 && c[k] != 47 { assert p[k] == c[k]; }
    assert p[|c|] == 47;
  }

  /** The walk, component by component: slashes that follow one another and one at the front count for nothing, a
      component before a slash must be bound to an entry with attribute bit 4, whose first cluster (bytes 26 and
      27) is where the walk goes on, and what stands behind the last slash is the name. */
  lemma WalkPath(m: Model, dc: nat, c: seq<Byte>, rest: seq<Byte>)
    requires c != [] && 47 !in c
    ensures Resolve(m, dc, []) == Itself(dc)
    ensures Resolve(m, dc, [47] + rest) == Resolve(m, dc, rest)
    ensures Resolve(m, dc, c) == Named(dc, CompName(c))
    ensures var names, n := NamesIn(m, dc), CompName(c);
            Resolve(m, dc, c + [47] + rest) ==
              if n in names && Slot(dc, names[n]) in m.ents && m.ents[Slot(dc, names[n])][11] / 16 % 2 == 1
              then Resolve(m, m.ents[Slot(dc, names[n])][26] as int + 256 * m.ents[Slot(dc, names[n])][27] as int, rest)
              else Missing
  {
    hide CompName, NamesIn, IndexOf;
    NoSlash(c, rest);
    NoSlash([], rest);
    var p, q := c + [47] + rest, [47] + rest;
    assert p[..|c|] == c && p[|c| + 1..] == rest;
    assert q == [] + [47] + rest && q[1..] == rest;
    assert IndexOf([], SLASH) == 0;
  }

  /** The file on the image: "HELLO.TXT" in the root is looked up as "HELLO   TXT". */
  lemma HelloTxt(m: Model)
    ensures Resolve(m, 0, [72, 69, 76, 76, 79, 46, 84, 88, 84])
         == Named(0, [72, 69, 76, 76, 79, 32, 32, 32, 84, 88, 84])
  {
    hide CompName, To83, Resolve, NamesIn, UpperName;
    var hello: seq<Byte> := [72, 69, 76, 76, 79, 46, 84, 88, 84];
    WalkPath(m, 0, hello, []);
    CompNameCut(hello);
    To83Bytes(hello, 5);
    assert CompName(hello) == [72, 69, 76, 76, 79, 32, 32, 32, 84, 88, 84];
  }
}
