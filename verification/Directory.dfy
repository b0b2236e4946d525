/** Directory entries, 8.3 names, and a directory's slots as a map from names. */
module Directory {
  import opened Sectors

  type Name = s: seq<Byte> | |s| == 11 witness seq(11, i => 32)

  const DIR_END := 0x00
  const DIR_FREE := 0xE5
  const ATTR_DIR := 0x10
  const ATTR_ARCH := 0x20
  const DOT := 46
  const SLASH := 47
  const SPACE := 32

  // ----- fields of an entry -----

  predicate IsEnd(e: Raw) { e[0] == DIR_END }

  predicate IsFree(e: Raw) { e[0] == DIR_FREE }

  /** Entries with a low attribute bit (long-name parts, labels, hidden, ...) are passed over. */
  predicate Skipped(e: Raw) { e[11] % 16 != 0 }

  predicate IsDir(e: Raw) { e[11] / 16 % 2 == 1 }

  predicate IsDot(e: Raw) {
    e[0] == DOT && (e[1] == SPACE || (e[1] == DOT && e[2] == SPACE))
  }

  /** An entry that stands for a file or a subdirectory of this directory. */
  predicate Live(e: Raw) {
    !IsEnd(e) && !IsFree(e) && !Skipped(e) && !IsDot(e)
  }

  function FirstCluster(e: Raw): nat { Le16(e[26], e[27]) }

  function FileSize(e: Raw): nat { Le32(e[28], e[29], e[30], e[31]) }

  function NameOf(e: Raw): Name { e[..11] }

  function Upper(b: Byte): Byte {
    if 97 <= b <= 122 then b - 32 else b
  }

  function UpperName(n: Name): Name {
    seq(11, i requires 0 <= i < 11 => Upper(n[i]))
  }

  /** The name an entry is found by: letters count as upper case. */
  function Key(e: Raw): Name { UpperName(NameOf(e)) }

  /** Base-256 digits of a 32-bit value. */
  lemma SizeDigits(x: nat)
    requires x < 0x1_0000_0000
    ensures x / 16777216 < 256
    ensures x == Le32(x % 256, x / 256 % 256, x / 65536 % 256, x / 16777216)
  {
    assert x / 256 / 256 == x / 65536;
    assert x / 65536 / 256 == x / 16777216;
  }

  /** The last six bytes of an entry: first cluster and size, little-endian. */
  function Tail(first: nat, size: nat): (t: seq<Byte>)
    requires first < 65536 && size < 0x1_0000_0000
    ensures |t| == 6 && Le16(t[0], t[1]) == first && Le32(t[2], t[3], t[4], t[5]) == size
  {
    SizeDigits(size);
    [first % 256, first / 256, size % 256, size / 256 % 256, size / 65536 % 256, size / 16777216]
  }

  /** The entry with its first-cluster and size fields replaced. */
  function WithSize(e: Raw, first: nat, size: nat): (r: Raw)
    requires first < 65536 && size < 0x1_0000_0000
    ensures FirstCluster(r) == first && FileSize(r) == size && r[..26] == e[..26]
  {
    e[..26] + Tail(first, size)
  }

  function Blank(n: Name, attr: Byte): (e: Raw)
    ensures NameOf(e) == n && e[11] == attr
  {
    seq(32, i requires 0 <= i < 32 => if i < 11 then n[i] else if i == 11 then attr else 0)
  }

  /** A fresh entry: name, attribute, first cluster; every other byte zero. */
  function NewEntry(n: Name, attr: Byte, first: nat): (e: Raw)
    requires first < 65536
    ensures FirstCluster(e) == first && FileSize(e) == 0 && NameOf(e) == n && e[11] == attr
  {
    var blank := Blank(n, attr);
    var e := WithSize(blank, first, 0);
    SamePrefix(blank, e);
    e
  }

  lemma SamePrefix(e: Raw, r: Raw)
    requires r[..26] == e[..26]
    ensures NameOf(r) == NameOf(e) && forall i | 0 <= i < 26 :: r[i] == e[i]
  {
    forall i | 0 <= i < 26 ensures r[i] == e[i] { assert r[i] == r[..26][i] == e[..26][i]; }
  }

  function WithName(e: Raw, n: Name): (r: Raw)
    ensures NameOf(r) == n && r[11..] == e[11..]
  {
    n + e[11..]
  }

  function Deleted(e: Raw): (r: Raw)
    ensures IsFree(r) && r[1..] == e[1..]
  {
    e[0 := DIR_FREE]
  }

  // ----- a directory's slots -----

  /** Nothing live past an end mark, names unique, live slots within the scanned range. */
  ghost predicate DirOk(slots: seq<Raw>, limit: nat) {
    && (forall i, j | 0 <= i < j < |slots| && IsEnd(slots[i]) :: !Live(slots[j]))
    && (forall i, j | 0 <= i < j < |slots| && Live(slots[i]) && Live(slots[j]) :: Key(slots[i]) != Key(slots[j]))
    && (forall i | 0 <= i < |slots| && Live(slots[i]) :: i < limit)
  }

  /** The directory as a finite map from upper-case names to slot numbers. */
  ghost function Names(slots: seq<Raw>, limit: nat): (r: map<Name, nat>)
    requires DirOk(slots, limit)
    ensures forall n | n in r :: r[n] < |slots| && Live(slots[r[n]]) && Key(slots[r[n]]) == n
    ensures forall i | 0 <= i < |slots| && Live(slots[i]) :: Key(slots[i]) in r && r[Key(slots[i])] == i
  {
    map i: nat | 0 <= i < |slots| && Live(slots[i]) :: Key(slots[i]) := i
  }

  /** The same for any slots: a directory out of order has no map. */
  ghost function NamesOf(slots: seq<Raw>, limit: nat): map<Name, nat> {
    if DirOk(slots, limit) then Names(slots, limit) else map[]
  }

  /** The map is determined by what it says of each live slot. */
  lemma NamesUnique(slots: seq<Raw>, limit: nat, b: map<Name, nat>)
    requires DirOk(slots, limit)
    requires forall n | n in b :: b[n] < |slots| && Live(slots[b[n]]) && Key(slots[b[n]]) == n
    requires forall i | 0 <= i < |slots| && Live(slots[i]) :: Key(slots[i]) in b
    ensures Names(slots, limit) == b
  {
    var a := Names(slots, limit);
    forall n | n in a ensures n in b && a[n] == b[n] { assert Live(slots[a[n]]); }
    assert a.Keys == b.Keys;
  }

  /** Taking the first end or free slot binds one new name and keeps the directory in order. */
  lemma Bind(slots: seq<Raw>, limit: nat, i: nat, e: Raw)
    requires DirOk(slots, limit) && i < |slots| && i < limit
    requires IsEnd(slots[i]) || IsFree(slots[i])
    requires forall j | 0 <= j < i :: !IsEnd(slots[j])
    requires Live(e) && Key(e) !in NamesOf(slots, limit)
    ensures DirOk(slots[i := e], limit)
    ensures NamesOf(slots[i := e], limit) == NamesOf(slots, limit)[Key(e) := i]
  {
    hide Key;
    forall j | 0 <= j < |slots| && j != i && Live(slots[j]) ensures Key(slots[j]) != Key(e) {
      assert Key(slots[j]) in Names(slots, limit);
    }
    BindOk(slots, limit, i, e);
    NamesUnique(slots[i := e], limit, Names(slots, limit)[Key(e) := i]);
  }

  lemma BindOk(slots: seq<Raw>, limit: nat, i: nat, e: Raw)
    requires DirOk(slots, limit) && i < |slots| && i < limit
    requires IsEnd(slots[i]) || IsFree(slots[i])
    requires forall j | 0 <= j < i :: !IsEnd(slots[j])
    requires Live(e)
    requires forall j | 0 <= j < |slots| && j != i && Live(slots[j]) :: Key(slots[j]) != Key(e)
    ensures DirOk(slots[i := e], limit)
  {
  }

  /** Marking a slot deleted unbinds its name and no other. */
  lemma Unbind(slots: seq<Raw>, limit: nat, i: nat, e: Raw)
    requires DirOk(slots, limit) && i < |slots| && Live(slots[i]) && !Live(e) && !IsEnd(e)
    ensures DirOk(slots[i := e], limit)
    ensures NamesOf(slots[i := e], limit) == NamesOf(slots, limit) - {Key(slots[i])}
  {
    hide Key;
    assert DirOk(slots[i := e], limit);
    NamesUnique(slots[i := e], limit, Names(slots, limit) - {Key(slots[i])});
  }

  /** Replacing a live entry by one with a name not otherwise bound moves the binding. */
  lemma Rebind(slots: seq<Raw>, limit: nat, i: nat, e: Raw)
    requires DirOk(slots, limit) && i < |slots| && Live(slots[i]) && Live(e)
    requires Key(e) == Key(slots[i]) || Key(e) !in NamesOf(slots, limit)
    ensures DirOk(slots[i := e], limit)
    ensures NamesOf(slots[i := e], limit) == (NamesOf(slots, limit) - {Key(slots[i])})[Key(e) := i]
  {
    hide DirOk, Live, Key;
    forall j | 0 <= j < |slots| && j != i && Live(slots[j]) ensures Key(slots[j]) != Key(e) {
      assert Key(slots[j]) in Names(slots, limit);
    }
    RebindOk(slots, limit, i, e);
    NamesUnique(slots[i := e], limit, (Names(slots, limit) - {Key(slots[i])})[Key(e) := i]);
  }

  lemma RebindOk(slots: seq<Raw>, limit: nat, i: nat, e: Raw)
    requires DirOk(slots, limit) && i < |slots| && Live(slots[i]) && Live(e)
    requires forall j | 0 <= j < |slots| && j != i && Live(slots[j]) :: Key(slots[j]) != Key(e)
    ensures DirOk(slots[i := e], limit)
  {
  }

  // ----- 8.3 names -----

  /** The first place of b in s, or the length of s. */
  function IndexOf(s: seq<Byte>, b: Byte): (i: nat)
    ensures i <= |s| && (i < |s| ==> s[i] == b)
    ensures forall k | 0 <= k < i :: s[k] != b
  {
    if s == [] || s[0] == b then 0 else 1 + IndexOf(s[1..], b)
  }

  /** Upper-cased, cut to n bytes, padded with spaces. */
  function Field(s: seq<Byte>, n: nat): (r: seq<Byte>)
    ensures |r| == n
  {
    seq(n, i requires 0 <= i < n => if i < |s| then Upper(s[i]) else SPACE)
  }

  /** The 8.3 form of a path component: what stands before the first dot, what follows it.
      An empty component or one that starts with a dot gives eleven spaces. */
  function To83(comp: seq<Byte>): (n: Name)
    ensures UpperName(n) == n
    ensures comp != [] && comp[0] != DOT ==> n[0] == Upper(comp[0])
    ensures n[0] != DOT && (0 !in comp ==> n[0] != 0)
  {
    if comp == [] || comp[0] == DOT then seq(11, i => SPACE) else
      var d := IndexOf(comp, DOT);
      assert d > 0;
      var n := Field(comp[..d], 8) + Field(comp[if d < |comp| then d + 1 else d..], 3);
      n
  }

  /** The eleven bytes of a component's 8.3 form, when its first dot is at d (d is its length if it has none). */
  lemma To83Bytes(comp: seq<Byte>, d: nat)
    requires 0 < d <= |comp| && (forall k | 0 <= k < d :: comp[k] != 46) && (d < |comp| ==> comp[d] == 46)
    ensures forall i | 0 <= i < 8 :: To83(comp)[i] ==
              if i >= d then 32 else if 97 <= comp[i] <= 122 then comp[i] - 32 else comp[i]
    ensures forall i | 8 <= i < 11 :: To83(comp)[i] ==
              if d + i - 7 >= |comp| then 32
              else if 97 <= comp[d + i - 7] <= 122 then comp[d + i - 7] - 32 else comp[d + i - 7]
  {
    assert IndexOf(comp, DOT) == d;
    var ext := comp[if d < |comp| then d + 1 else d..];
    assert To83(comp) == Field(comp[..d], 8) + Field(ext, 3);
    forall i | 8 <= i < 11 ensures To83(comp)[i] == Field(ext, 3)[i - 8] {}
  }

  lemma To83Parts(comp: seq<Byte>)
    requires comp != [] && comp[0] != DOT
    ensures var d := IndexOf(comp, DOT);
            To83(comp) == Field(comp[..d], 8) + Field(comp[if d < |comp| then d + 1 else d..], 3)
  {
    hide Field, IndexOf, UpperName;
    var d := IndexOf(comp, DOT);
    assert To83(comp) == Field(comp[..d], 8) + Field(comp[if d < |comp| then d + 1 else d..], 3);
  }

  /** Without a byte before a dot there are eleven spaces. */
  lemma To83Spaces(comp: seq<Byte>)
    requires comp == [] || comp[0] == 46
    ensures forall i | 0 <= i < 11 :: To83(comp)[i] == 32
  {
  }

  /** Byte i of s in upper case, a space behind its end. */
  function Padded(s: seq<Byte>, i: nat): Byte {
    if i >= |s| then 32 else if 97 <= s[i] <= 122 then s[i] - 32 else s[i]
  }

  /** Two components get the same name exactly when what counts of them, up to eight bytes before the first dot and
      up to three behind it, agrees in upper case and filled up with spaces. */
  lemma SameName83(a: seq<Byte>, d: nat, b: seq<Byte>, e: nat)
    requires 0 < d <= |a| && (forall k | 0 <= k < d :: a[k] != 46) && (d < |a| ==> a[d] == 46)
    requires 0 < e <= |b| && (forall k | 0 <= k < e :: b[k] != 46) && (e < |b| ==> b[e] == 46)
    ensures var x, y := a[if d < |a| then d + 1 else d..], b[if e < |b| then e + 1 else e..];
      To83(a) == To83(b) <==>
        && (forall i | 0 <= i < 8 :: Padded(a[..d], i) == Padded(b[..e], i))
        && (forall i | 0 <= i < 3 :: Padded(x, i) == Padded(y, i))
  {
    hide To83;
    To83Bytes(a, d);
    To83Bytes(b, e);
    var x, y := a[if d < |a| then d + 1 else d..], b[if e < |b| then e + 1 else e..];
    forall i | 8 <= i < 11 ensures To83(a)[i] == Padded(x, i - 8) && To83(b)[i] == Padded(y, i - 8) {}
    forall i | 0 <= i < 8 ensures To83(a)[i] == Padded(a[..d], i) && To83(b)[i] == Padded(b[..e], i) {}
    if To83(a) == To83(b) {
      forall i | 0 <= i < 3 ensures Padded(x, i) == Padded(y, i) { assert To83(a)[i + 8] == To83(b)[i + 8]; }
    } else {
      assert exists i :: 0 <= i < 11 && To83(a)[i] != To83(b)[i];
    }
  }

  // ----- entries byte by byte -----

  /** Which of its 32 bytes say what: the name in 11, the attributes in byte 11, the first cluster in 26 and 27, the
      size in 28 to 31. An entry counts unless it starts with 0 or 0xE5, has a low attribute bit, or is "." or "..". */
  lemma EntryFields(e: Raw)
    ensures FirstCluster(e) == e[26] as int + 256 * e[27] as int
    ensures FileSize(e) == e[28] as int + 0x100 * e[29] as int + 0x1_0000 * e[30] as int + 0x100_0000 * e[31] as int
    ensures IsDir(e) <==> e[11] / 16 % 2 == 1
    ensures IsEnd(e) <==> e[0] == 0
    ensures IsFree(e) <==> e[0] == 0xE5
    ensures Live(e) <==> e[0] != 0 && e[0] != 0xE5 && e[11] % 16 == 0
                         && !(e[0] == 46 && (e[1] == 32 || (e[1] == 46 && e[2] == 32)))
    ensures forall i | 0 <= i < 11 :: Key(e)[i] == if 97 <= e[i] <= 122 then e[i] - 32 else e[i]
  {
  }

  lemma NewEntryBytes(n: Name, attr: Byte, first: nat)
    requires first < 65536
    ensures var e := NewEntry(n, attr, first);
      && (forall i | 0 <= i < 11 :: e[i] == n[i]) && e[11] == attr && (forall i | 12 <= i < 26 :: e[i] == 0)
      && e[26] == first % 256 && e[27] == first / 256 && (forall i | 28 <= i < 32 :: e[i] == 0)
  {
    hide WithSize, Blank, FirstCluster, FileSize, NameOf;
    var b := Blank(n, attr);
    assert NewEntry(n, attr, first) == WithSize(b, first, 0);
    hide NewEntry;
    WithSizeBytes(b, first, 0);
    BlankBytes(n, attr);
  }

  lemma BlankBytes(n: Name, attr: Byte)
    ensures var e := Blank(n, attr);
      (forall i | 0 <= i < 11 :: e[i] == n[i]) && e[11] == attr && forall i | 12 <= i < 32 :: e[i] == 0
  {
  }

  lemma WithSizeBytes(e: Raw, first: nat, size: nat)
    requires first < 65536 && size < 0x1_0000_0000
    ensures var r := WithSize(e, first, size);
      && (forall i | 0 <= i < 26 :: r[i] == e[i]) && r[26] == first % 256 && r[27] == first / 256
      && r[28] == size % 256 && r[29] == size / 0x100 % 256 && r[30] == size / 0x1_0000 % 256
      && r[31] == size / 0x100_0000
  {
  }

  lemma RenamedBytes(e: Raw, n: Name)
    ensures forall i | 0 <= i < 11 :: WithName(e, n)[i] == n[i]
    ensures forall i | 11 <= i < 32 :: WithName(e, n)[i] == e[i]
    ensures Deleted(e)[0] == 0xE5 && forall i | 1 <= i < 32 :: Deleted(e)[i] == e[i]
  {
  }
}
