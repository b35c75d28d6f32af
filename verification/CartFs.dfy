/**
 * The cartridge filesystem as nr32-sys/src/fs.rs reads it: `Fs::from_rom`, `visit_r`, `entry_at`,
 * `entry`, `fsck` and the `FsEntry` accessors. A visitor is a function of the state that the
 * source's closures capture; `mem` is the filesystem image.
 */
module CartFs {
  import opened Arith
  import opened Wrappers
  import opened MemoryMap
  import opened CartImage
  import Adler

  datatype EntryType = DirectoryType | FileType

  // ---------- FsEntry ----------

  /** The position of the next entry, or 0; the low bits hold the type. */
  function Next(mem: seq<nat>, pos: nat): nat
    requires pos + HEADER_LEN <= |mem|
  {
    U32At(mem, pos) / 16 * 16
  }

  function TypeAt(mem: seq<nat>, pos: nat): Result<EntryType, SysError>
    requires pos + HEADER_LEN <= |mem|
  {
    if mem[pos] % 16 == DIRECTORY then Ok(DirectoryType)
    else if mem[pos] % 16 == FILE then Ok(FileType)
    else Err(Invalid)
  }

  function ContentsAt(mem: seq<nat>, pos: nat): Result<seq<nat>, SysError>
    requires pos + HEADER_LEN <= |mem|
  {
    var start := pos + HEADER_LEN;
    var end := start + U32At(mem, pos + 4);
    if end >= U32 then Err(Panic)
    else if TypeAt(mem, pos) != Ok(FileType) || end > |mem| then Err(Invalid)
    else Ok(mem[start..end])
  }

  /** A name ends at its first NUL, or fills the field. */
  function UpToNul(s: seq<nat>): seq<nat> {
    if s == [] || s[0] == 0 then [] else [s[0]] + UpToNul(s[1..])
  }

  /** What a visitor can see of an entry. */
  datatype Entry = Entry(
    name: seq<nat>,
    ty: Result<EntryType, SysError>,
    contents: Result<seq<nat>, SysError>,
    csum: nat)

  function View(mem: seq<nat>, pos: nat): Entry
    requires pos + HEADER_LEN <= |mem|
  {
    Entry(UpToNul(mem[pos + 16..pos + 32]), TypeAt(mem, pos), ContentsAt(mem, pos), U32At(mem, pos + 8))
  }

  /** `entry_at`. */
  function EntryAt(mem: seq<nat>, pos: nat): Result<nat, SysError> {
    if pos == 0 || pos % 16 != 0 then Err(Invalid)
    else if pos + HEADER_LEN >= U32 then Err(Panic)
    else if pos + HEADER_LEN > |mem| then Err(Invalid)
    else Ok(pos)
  }

  // ---------- The tree that an image holds ----------

  predicate NoNul(name: seq<nat>) { forall i :: 0 <= i < |name| ==> name[i] != 0 }

  /** Trees whose names fit the format: they are short and without NUL. */
  predicate Good(n: Node)
    decreases n
  {
    |n.name| <= NAME_LEN && NoNul(n.name) && (n.Dir? ==> AllGood(n.entries))
  }

  predicate AllGood(l: seq<Node>)
    decreases l
  {
    l == [] || (Good(l[0]) && AllGood(l[1..]))
  }

  /** No directory is empty: the format has no way to say so. */
  predicate Full(l: seq<Node>)
    decreases l
  {
    l == [] || ((l[0].Dir? ==> l[0].entries != [] && Full(l[0].entries)) && Full(l[1..]))
  }

  lemma {:induction false} GoodFits(n: Node)
    requires Good(n)
    ensures NamesFit(n)
    decreases n
  {
    if n.Dir? { AllGoodFit(n.entries); }
  }

  lemma {:induction false} AllGoodFit(l: seq<Node>)
    requires AllGood(l)
    ensures AllNamesFit(l)
    decreases l
  {
    if l != [] {
      GoodFits(l[0]);
      AllGoodFit(l[1..]);
    }
  }

  /** The entries `l` of a directory lie at `pos`. */
  ghost predicate ListAt(mem: seq<nat>, l: seq<Node>, pos: nat) {
    && AllGood(l) && l != [] && Aligned(pos) && pos > 0
    && pos + SizeOfList(l) <= |mem| < U32
    && mem[pos..pos + SizeOfList(l)] == EncodeList(l, pos)
  }

  ghost predicate NodeAtPos(mem: seq<nat>, n: Node, pos: nat, last: bool) {
    && Good(n) && Aligned(pos) && pos > 0
    && pos + Size(n) <= |mem| < U32
    && mem[pos..pos + Size(n)] == Encode(n, pos, last)
  }

  function ViewOf(n: Node): Entry {
    match n
    case File(name, contents) => Entry(name, Ok(FileType), Ok(contents), Adler.Checksum(contents))
    case Dir(name, _) => Entry(name, Ok(DirectoryType), Err(Invalid), 0)
  }

  lemma FieldAt(mem: seq<nat>, p: nat, x: nat)
    requires p + 4 <= |mem| && x < U32 && mem[p..p + 4] == Le32(x)
    ensures U32At(mem, p) == x
  {
    Le32RoundTrip(x);
    var w := mem[p..p + 4];
    assert w[0] == mem[p] && w[1] == mem[p + 1] && w[2] == mem[p + 2] && w[3] == mem[p + 3];
  }

  lemma {:induction false} NameRoundTrip(name: seq<nat>, k: nat)
    requires NoNul(name)
    ensures UpToNul(name + Zeros(k)) == name
  {
    if name == [] {
      assert name + Zeros(k) == Zeros(k);
    } else {
      NameRoundTrip(name[1..], k);
      assert (name + Zeros(k))[1..] == name[1..] + Zeros(k);
    }
  }

  /** Where the fields of an entry are. */
  lemma EncodeParts(n: Node, base: nat, last: bool)
    requires NamesFit(n)
    ensures var w := Encode(n, base, last);
      && |w| == Size(n)
      && w[0..4] == Le32((if last then 0 else base + Size(n)) + TypeCode(n))
      && w[4..8] == Le32(Length(n)) && w[8..12] == Le32(Csum(n)) && w[16..32] == Padded(n.name)
      && w[32..] == Payload(n, base + HEADER_LEN)
  {
    EncodeSize(n, base, last);
    assert |Padded(n.name)| == 16;
    hide Le32, Payload, Csum, TypeCode, Size, Length, NamesFit, Padded, Zeros;
    Parts(Le32((if last then 0 else base + Size(n)) + TypeCode(n)), Le32(Length(n)), Le32(Csum(n)), Zeros(4),
          Padded(n.name), Payload(n, base + HEADER_LEN));
  }

  lemma Parts(a: seq<nat>, b: seq<nat>, c: seq<nat>, d: seq<nat>, e: seq<nat>, p: seq<nat>)
    requires |a| == |b| == |c| == |d| == 4 && |e| == 16
    ensures var w := a + (b + (c + (d + e))) + p;
      w[0..4] == a && w[4..8] == b && w[8..12] == c && w[16..32] == e && w[32..] == p
  {
    var w := a + (b + (c + (d + e))) + p;
    assert w[4..] == b + (c + (d + e)) + p;
    assert w[8..] == c + (d + e) + p;
    assert w[12..] == d + e + p;
    assert w[16..] == e + p;
    assert w[4..8] == w[4..][..4] && w[8..12] == w[8..][..4] && w[16..32] == w[16..][..16] && w[32..] == w[16..][16..];
  }

  lemma SliceOf(mem: seq<nat>, pos: nat, w: seq<nat>, i: nat, j: nat)
    requires pos + |w| <= |mem| && mem[pos..pos + |w|] == w && i <= j <= |w|
    ensures mem[pos + i..pos + j] == w[i..j]
  {
    var all := mem[pos..pos + |w|];
    forall k | 0 <= k < j - i ensures mem[pos + i..pos + j][k] == w[i..j][k] {
      assert all[i + k] == mem[pos + i + k];
    }
  }

  /** Everything an entry of a tree occupies is at most its size. */
  lemma FieldsFit(n: Node)
    requires Good(n)
    ensures HEADER_LEN + Length(n) <= Size(n) && (n.File? ==> HEADER_LEN + |n.contents| <= Size(n))
  {
    if n.Dir? { CountFits(n.entries); }
  }

  lemma {:induction false} CountFits(l: seq<Node>)
    ensures |l| <= SizeOfList(l)
    decreases l
  {
    if l != [] { CountFits(l[1..]); }
  }

  lemma NextAndType(x: nat, next: nat, code: nat)
    requires Aligned(next) && code < 16 && x == next + code
    ensures x / 16 * 16 == next && x % 16 == code
  {
    DivModUnique(x, 16, next / 16, code);
  }

  lemma FirstByte(x: nat)
    ensures Le32(x)[0] % 16 == x % 16
  {
    assert x == 0x100 * (x / 0x100) + x % 0x100;
    DivModUnique(x, 16, 16 * (x / 0x100) + x % 0x100 / 16, x % 0x100 % 16);
  }

  /** The accessors give back what the tree holds. */
  lemma EntryView(mem: seq<nat>, n: Node, pos: nat, last: bool)
    requires NodeAtPos(mem, n, pos, last)
    ensures pos + HEADER_LEN <= |mem| && EntryAt(mem, pos) == Ok(pos)
    ensures Next(mem, pos) == if last then 0 else pos + Size(n)
    ensures View(mem, pos) == ViewOf(n) && TypeAt(mem, pos) == Ok(if n.Dir? then DirectoryType else FileType)
  {
    FieldsFit(n);
    NextView(mem, n, pos, last);
    NameView(mem, n, pos, last);
    FieldsView(mem, n, pos, last);
    ContentsView(mem, n, pos, last);
    hide Good, Encode, Size, Aligned, ContentsAt, TypeAt, Next, UpToNul;
  }

  lemma NextView(mem: seq<nat>, n: Node, pos: nat, last: bool)
    requires NodeAtPos(mem, n, pos, last) && pos + HEADER_LEN <= |mem|
    ensures Next(mem, pos) == if last then 0 else pos + Size(n)
    ensures TypeAt(mem, pos) == Ok(if n.Dir? then DirectoryType else FileType)
  {
    GoodFits(n);
    EncodeParts(n, pos, last);
    hide Good, NamesFit, Encode, Size, Aligned, Le32, Payload, Csum, Padded, Length, U32At;
    var next := if last then 0 else pos + Size(n);
    NextIsAligned(pos, n);
    var x := next + TypeCode(n);
    SliceOf(mem, pos, Encode(n, pos, last), 0, 4);
    NextFits(mem, n, pos, last);
    FieldAt(mem, pos, x);
    NextAndType(x, next, TypeCode(n));
    FirstByte(x);
    assert mem[pos] == mem[pos + 0..pos + 4][0];
  }

  lemma NextIsAligned(pos: nat, n: Node)
    requires Aligned(pos)
    ensures Aligned(pos + Size(n)) && Aligned(0)
  {
    AlignedSum(pos, Size(n));
  }

  lemma BelowU32(n: nat)
    requires Aligned(n) && n < U32
    ensures n + 16 <= U32
  {}

  lemma NextFits(mem: seq<nat>, n: Node, pos: nat, last: bool)
    requires NodeAtPos(mem, n, pos, last)
    ensures (if last then 0 else pos + Size(n)) + TypeCode(n) < U32
  {
    hide Good, Encode, Size;
    NextIsAligned(pos, n);
    BelowU32(pos + Size(n));
  }

  lemma NameView(mem: seq<nat>, n: Node, pos: nat, last: bool)
    requires NodeAtPos(mem, n, pos, last) && pos + HEADER_LEN <= |mem|
    ensures UpToNul(mem[pos + 16..pos + 32]) == n.name
  {
    GoodFits(n);
    EncodeParts(n, pos, last);
    NameRoundTrip(n.name, NAME_LEN - |n.name|);
    hide NamesFit, Encode, Size, Aligned, Le32, Payload, Csum, Length, U32At, UpToNul;
    SliceOf(mem, pos, Encode(n, pos, last), 16, 32);
  }

  lemma FieldsView(mem: seq<nat>, n: Node, pos: nat, last: bool)
    requires NodeAtPos(mem, n, pos, last) && pos + HEADER_LEN <= |mem|
    ensures U32At(mem, pos + 4) == Length(n) && U32At(mem, pos + 8) == Csum(n)
    ensures HEADER_LEN <= Size(n) && mem[pos + HEADER_LEN..pos + Size(n)] == Payload(n, pos + HEADER_LEN)
  {
    hide Good, NamesFit, Encode, Size, Aligned, Le32, Padded, U32At, Payload, Adler.Checksum, TypeCode, Length, Csum;
    GoodFits(n);
    FieldsFit(n);
    EncodeParts(n, pos, last);
    FieldBounds(n, pos, mem);
    var w := Encode(n, pos, last);
    SliceOf(mem, pos, w, 4, 8);
    SliceOf(mem, pos, w, 8, 12);
    SliceOf(mem, pos, w, 32, |w|);
    FieldAt(mem, pos + 4, Length(n));
    FieldAt(mem, pos + 8, Csum(n));
  }

  lemma FieldBounds(n: Node, pos: nat, mem: seq<nat>)
    requires HEADER_LEN + Length(n) <= Size(n) && pos + Size(n) <= |mem| < U32
    ensures Length(n) < U32 && Csum(n) < U32
  {
    hide Length, Size;
  }

  lemma ContentsView(mem: seq<nat>, n: Node, pos: nat, last: bool)
    requires NodeAtPos(mem, n, pos, last) && pos + HEADER_LEN <= |mem|
    ensures ContentsAt(mem, pos) == if n.File? then Ok(n.contents) else Err(Invalid)
  {
    hide NodeAtPos, Size, U32At, TypeAt, Length;
    LengthFits(mem, n, pos, last);
    FieldsView(mem, n, pos, last);
    NextView(mem, n, pos, last);
    if n.File? {
      LengthIs(n);
      FileContents(mem, n, pos, last);
    }
  }

  lemma LengthIs(n: Node)
    requires n.File?
    ensures Length(n) == |n.contents|
  {}

  lemma LengthFits(mem: seq<nat>, n: Node, pos: nat, last: bool)
    requires NodeAtPos(mem, n, pos, last)
    ensures pos + HEADER_LEN + Length(n) < U32
  {
    FieldsFit(n);
    hide Good, Encode, Size, Aligned;
  }

  lemma FileContents(mem: seq<nat>, n: Node, pos: nat, last: bool)
    requires NodeAtPos(mem, n, pos, last) && pos + HEADER_LEN <= |mem| && n.File?
    ensures pos + HEADER_LEN + |n.contents| <= |mem|
    ensures mem[pos + HEADER_LEN..pos + HEADER_LEN + |n.contents|] == n.contents
  {
    FieldsFit(n);
    hide Good, Encode, Size, Aligned, Payload;
    FieldsView(mem, n, pos, last);
    FilePayload(n, pos + HEADER_LEN);
    SliceOf(mem, pos + HEADER_LEN, Payload(n, pos + HEADER_LEN), 0, |n.contents|);
  }

  lemma FilePayload(n: Node, base: nat)
    requires n.File?
    ensures |n.contents| <= |Payload(n, base)| && Payload(n, base)[0..|n.contents|] == n.contents
  {}

  // ---------- Lists ----------

  /** A directory listing in an image is its first entry, and the listing after it. */
  lemma ListSplits(mem: seq<nat>, l: seq<Node>, pos: nat)
    requires ListAt(mem, l, pos)
    ensures l != [] && pos > 0 && NodeAtPos(mem, l[0], pos, |l| == 1)
    ensures |l| > 1 ==> ListAt(mem, l[1..], pos + Size(l[0]))
  {
    hide Good, AllGood, NamesFit, AllNamesFit, Encode, EncodeList, Size, SizeOfList, Aligned;
    ListGood(mem, l, pos);
    AllGoodFit(l);
    ListBytes(l, pos);
    NextIsAligned(pos, l[0]);
    var w, k := EncodeList(l, pos), Size(l[0]);
    SliceOf(mem, pos, w, 0, k);
    SliceOf(mem, pos, w, k, |w|);
  }

  lemma ListGood(mem: seq<nat>, l: seq<Node>, pos: nat)
    requires ListAt(mem, l, pos)
    ensures l != [] && Good(l[0]) && AllGood(l[1..]) && SizeOfList(l) == Size(l[0]) + SizeOfList(l[1..])
  {
    hide Good, Encode, EncodeList, Size;
  }

  lemma ListBytes(l: seq<Node>, pos: nat)
    requires AllNamesFit(l) && l != []
    ensures var w, k := EncodeList(l, pos), Size(l[0]);
      && |w| == SizeOfList(l) && k <= |w| && w[0..k] == Encode(l[0], pos, |l| == 1)
      && w[k..|w|] == EncodeList(l[1..], pos + k)
  {
    EncodeSize(l[0], pos, |l| == 1);
    EncodeListSize(l, pos);
    hide Encode, Size;
    assert EncodeList(l, pos) == Encode(l[0], pos, |l| == 1) + EncodeList(l[1..], pos + Size(l[0]));
  }

  /** The entries of a directory follow its header. */
  lemma DirSplits(mem: seq<nat>, n: Node, pos: nat, last: bool)
    requires NodeAtPos(mem, n, pos, last) && n.Dir? && n.entries != []
    ensures ListAt(mem, n.entries, pos + HEADER_LEN)
  {
    FieldsFit(n);
    FieldsView(mem, n, pos, last);
    AlignedHeader(pos);
    hide Aligned, EncodeList, Encode, SizeOfList;
  }

  // ---------- Visits ----------

  datatype VisitRet = End | Recurse | Ignore

  type Visitor<!S> = (S, Entry) -> (S, Result<VisitRet, SysError>)

  /** A visit of a directory listing at `base`: the visitor's last state, and where it ended the visit. */
  function Walk<S>(l: seq<Node>, base: nat, v: Visitor<S>, s: S): (S, Result<Option<nat>, SysError>)
    decreases l
  {
    if l == [] then (s, Ok(None))
    else
      var (s1, r) := v(s, ViewOf(l[0]));
      match r
      case Err(e) => (s1, Err(e))
      case Ok(End) => (s1, Ok(Some(base)))
      case Ok(Ignore) => Walk(l[1..], base + Size(l[0]), v, s1)
      case Ok(Recurse) =>
        if l[0].File? then Walk(l[1..], base + Size(l[0]), v, s1)
        else
          var (s2, r2) := Walk(l[0].entries, base + HEADER_LEN, v, s1);
          if r2 == Ok(None) then Walk(l[1..], base + Size(l[0]), v, s2) else (s2, r2)
  }

  /**
   * `visit_r` on any image, in which pointers can lead anywhere: what it returns if it follows no more
   * than `fuel` of them in a row, and nothing if that does not take it to an end.
   */
  function WalkBytes<S>(mem: seq<nat>, pos: nat, v: Visitor<S>, s: S, fuel: nat)
    : Option<(S, Result<Option<nat>, SysError>)>
    decreases fuel
  {
    if pos == 0 then Some((s, Ok(None)))
    else if fuel == 0 then None
    else
      match EntryAt(mem, pos)
      case Err(e) => Some((s, Err(e)))
      case Ok(entry) =>
        var (s1, r) := v(s, View(mem, entry));
        match r
        case Err(e) => Some((s1, Err(e)))
        case Ok(End) => Some((s1, Ok(Some(entry))))
        case Ok(Ignore) => WalkBytes(mem, Next(mem, entry), v, s1, fuel - 1)
        case Ok(Recurse) =>
          if TypeAt(mem, entry) != Ok(DirectoryType) then WalkBytes(mem, Next(mem, entry), v, s1, fuel - 1)
          else
            var inner := WalkBytes(mem, entry + HEADER_LEN, v, s1, fuel - 1);
            if inner.Some? && inner.value.1 == Ok(None) then
              WalkBytes(mem, Next(mem, entry), v, inner.value.0, fuel - 1)
            else inner
  }

  /** `visit_r`; nothing when the fuel does not suffice. */
  method VisitR<S>(mem: seq<nat>, v: Visitor<S>, s: S, start: nat, fuel: nat)
    returns (out: Option<(S, Result<Option<nat>, SysError>)>)
    ensures out == WalkBytes(mem, start, v, s, fuel)
    decreases fuel
  {
    hide View, Next, EntryAt, TypeAt;
    var pos, state := start, s;
    var left: nat := fuel;
    while pos > 0
      invariant left <= fuel && WalkBytes(mem, start, v, s, fuel) == WalkBytes(mem, pos, v, state, left)
      decreases left
    {
      if left == 0 {
        return None;
      }
      var at := EntryAt(mem, pos);
      if at.Err? {
        return Some((state, Err(at.error)));
      }
      var entry := at.value;
      EntryFits(mem, pos);
      pos := Next(mem, entry);
      left := left - 1;
      var seen := v(state, View(mem, entry));
      state := seen.0;
      match seen.1 {
        case Err(e) => return Some((state, Err(e)));
        case Ok(End) => return Some((state, Ok(Some(entry))));
        case Ok(Ignore) =>
        case Ok(Recurse) =>
          if TypeAt(mem, entry) == Ok(DirectoryType) {
            var inner := VisitR(mem, v, state, entry + HEADER_LEN, left);
            if inner.None? || inner.value.1 != Ok(None) {
              return inner;
            }
            state := inner.value.0;
          }
      }
    }
    return Some((state, Ok(None)));
  }

  lemma EntryFits(mem: seq<nat>, pos: nat)
    requires EntryAt(mem, pos).Ok?
    ensures EntryAt(mem, pos).value == pos && pos + HEADER_LEN <= |mem|
  {}

  /** Fuel only decides whether there is a result, not which. */
  lemma {:induction false} MoreFuel<S>(mem: seq<nat>, pos: nat, v: Visitor<S>, s: S, fuel: nat, more: nat)
    requires WalkBytes(mem, pos, v, s, fuel).Some? && fuel <= more
    ensures WalkBytes(mem, pos, v, s, more) == WalkBytes(mem, pos, v, s, fuel)
    decreases fuel
  {
    hide View, Next, TypeAt;
    if pos != 0 && EntryAt(mem, pos).Ok? {
      var entry := EntryAt(mem, pos).value;
      var (s1, r) := v(s, View(mem, entry));
      if r == Ok(Recurse) && TypeAt(mem, entry) == Ok(DirectoryType) {
        MoreFuel(mem, entry + HEADER_LEN, v, s1, fuel - 1, more - 1);
        var inner := WalkBytes(mem, entry + HEADER_LEN, v, s1, fuel - 1);
        if inner.value.1 == Ok(None) { MoreFuel(mem, Next(mem, entry), v, inner.value.0, fuel - 1, more - 1); }
      } else if r == Ok(Recurse) || r == Ok(Ignore) {
        MoreFuel(mem, Next(mem, entry), v, s1, fuel - 1, more - 1);
      }
    }
  }

  /** The longest chain of pointers in a listing and the directories in it. */
  function Need(l: seq<Node>): nat
    decreases l
  {
    if l == [] then 0
    else
      var inside, behind := if l[0].Dir? then Need(l[0].entries) else 0, Need(l[1..]);
      1 + if inside < behind then behind else inside
  }

  /** In an image that holds a listing without empty directories, the visit ends, and it is a visit of that listing. */
  lemma {:induction false} WrittenWalk<S>(mem: seq<nat>, l: seq<Node>, pos: nat, v: Visitor<S>, s: S, fuel: nat)
    requires ListAt(mem, l, pos) && Full(l) && fuel >= Need(l)
    ensures WalkBytes(mem, pos, v, s, fuel) == Some(Walk(l, pos, v, s))
    decreases l
  {
    hide ListAt, NodeAtPos, View, Next, EntryAt, ViewOf, Size, TypeAt;
    ListSplits(mem, l, pos);
    EntryView(mem, l[0], pos, |l| == 1);
    var (s1, r) := v(s, ViewOf(l[0]));
    if r == Ok(Recurse) && l[0].Dir? {
      DirSplits(mem, l[0], pos, |l| == 1);
      WrittenWalk(mem, l[0].entries, pos + HEADER_LEN, v, s1, fuel - 1);
      var inner := Walk(l[0].entries, pos + HEADER_LEN, v, s1);
      if inner.1 == Ok(None) { WrittenRest(mem, l, pos, v, inner.0, fuel); }
    } else if r == Ok(Recurse) || r == Ok(Ignore) {
      WrittenRest(mem, l, pos, v, s1, fuel);
    }
  }

  lemma {:induction false} WrittenRest<S>(mem: seq<nat>, l: seq<Node>, pos: nat, v: Visitor<S>, s: S, fuel: nat)
    requires ListAt(mem, l, pos) && Full(l) && fuel >= Need(l)
    ensures pos + HEADER_LEN <= |mem| && fuel > 0
    ensures WalkBytes(mem, Next(mem, pos), v, s, fuel - 1) == Some(Walk(l[1..], pos + Size(l[0]), v, s))
    decreases l, 0
  {
    hide ListAt, NodeAtPos, View, Next, EntryAt, ViewOf, Size, TypeAt;
    ListSplits(mem, l, pos);
    EntryView(mem, l[0], pos, |l| == 1);
    if |l| > 1 {
      WrittenWalk(mem, l[1..], pos + Size(l[0]), v, s, fuel - 1);
    } else {
      assert l[1..] == [];
    }
  }

  // ---------- Looking up a path ----------

  type Path = seq<seq<nat>>

  /**
   * The closure of `entry`: what is left of the path gets shorter with every entry whose name
   * matches, and is never restored. The walk never asks with nothing left.
   */
  function PathVisitor(path: Path, e: Entry): (Path, Result<VisitRet, SysError>) {
    if path == [] || e.name != path[0] then (path, Ok(Ignore))
    else if |path| == 1 then ([], Ok(End))
    else (path[1..], Ok(Recurse))
  }

  function Lookup(l: seq<Node>, base: nat, path: Path): (Path, Result<Option<nat>, SysError>) {
    Walk(l, base, PathVisitor, path)
  }

  /** The outcome of `Fs::entry` for the filesystem with this root. */
  function Found(root: Node, path: Path): Result<nat, SysError> {
    if path == [] then Err(NoEnt)
    else
      match Lookup([root], 16, path).1
      case Err(e) => Err(e)
      case Ok(None) => Err(NoEnt)
      case Ok(Some(pos)) => Ok(pos)
  }

  /** The same for any image, if the visit ends. */
  function FoundIn(mem: seq<nat>, path: Path, fuel: nat): Option<Result<nat, SysError>> {
    if path == [] then Some(Err(NoEnt))
    else
      match WalkBytes(mem, 16, PathVisitor, path, fuel)
      case None => None
      case Some((_, Err(e))) => Some(Err(e))
      case Some((_, Ok(None))) => Some(Err(NoEnt))
      case Some((_, Ok(Some(pos)))) => Some(Ok(pos))
  }

  /** `Fs::entry`. */
  method FindEntry(mem: seq<nat>, path: Path, fuel: nat) returns (r: Option<Result<nat, SysError>>)
    ensures r == FoundIn(mem, path, fuel)
    ensures forall root: Node :: ListAt(mem, [root], 16) && Full([root]) && fuel >= Need([root]) ==>
      r == Some(Found(root, path))
  {
    WrittenFound(mem, path, fuel);
    if path == [] {
      return Some(Err(NoEnt));
    }
    var out := VisitR(mem, PathVisitor, path, 16, fuel);
    if out.None? {
      return None;
    }
    match out.value.1 {
      case Err(error) => return Some(Err(error));
      case Ok(None) => return Some(Err(NoEnt));
      case Ok(Some(pos)) => return Some(Ok(pos));
    }
  }

  lemma WrittenFound(mem: seq<nat>, path: Path, fuel: nat)
    ensures forall root: Node :: ListAt(mem, [root], 16) && Full([root]) && fuel >= Need([root]) ==>
      FoundIn(mem, path, fuel) == Some(Found(root, path))
  {
    forall root: Node | ListAt(mem, [root], 16) && Full([root]) && fuel >= Need([root])
      ensures FoundIn(mem, path, fuel) == Some(Found(root, path))
    {
      WrittenWalk(mem, [root], 16, PathVisitor, path, fuel);
      hide ListAt, Walk, WalkBytes;
    }
  }

  // ---------- Checking a filesystem ----------

  datatype Stats = Stats(dirCount: nat, fileCount: nat, badFiles: nat, fileBytes: nat)

  /** The closure of `fsck`; the name of a bad file is logged, which needs it to be in UTF-8. */
  function CheckOne(utf8: seq<nat> -> bool, st: Stats, e: Entry): (Stats, Result<VisitRet, SysError>) {
    match e.ty
    case Err(error) => (st, Err(error))
    case Ok(DirectoryType) => (st.(dirCount := st.dirCount + 1), Ok(Recurse))
    case Ok(FileType) =>
      var st1 := st.(fileCount := st.fileCount + 1);
      match e.contents
      case Err(error) => (st1, Err(error))
      case Ok(contents) =>
        if Adler.Checksum(contents) == e.csum then (st1.(fileBytes := st.fileBytes + |contents|), Ok(Recurse))
        else if !utf8(e.name) then (st1, Err(Invalid))
        else (st1.(badFiles := st.badFiles + 1, fileBytes := st.fileBytes + |contents|), Ok(Recurse))
  }

  function CheckVisitor(utf8: seq<nat> -> bool): Visitor<Stats> { (st, e) => CheckOne(utf8, st, e) }

  /** `Fs::fsck`, after the checksum of the whole image. */
  function Checked(root: Node, utf8: seq<nat> -> bool): Result<Stats, SysError> {
    var (st, r) := Walk([root], 16, CheckVisitor(utf8), Stats(0, 0, 0, 0));
    if r.Err? then Err(r.error) else Ok(st)
  }

  /** `Fs::fsck` for any image, if the visit ends. */
  function CheckedIn(mem: seq<nat>, utf8: seq<nat> -> bool, fuel: nat): Option<Result<Stats, SysError>>
    requires |mem| >= 16
  {
    if Adler.Checksum(mem[12..]) != U32At(mem, 8) then Some(Err(Invalid))
    else
      match WalkBytes(mem, 16, CheckVisitor(utf8), Stats(0, 0, 0, 0), fuel)
      case None => None
      case Some((_, Err(e))) => Some(Err(e))
      case Some((st, Ok(_))) => Some(Ok(st))
  }

  method Fsck(mem: seq<nat>, utf8: seq<nat> -> bool, fuel: nat) returns (r: Option<Result<Stats, SysError>>)
    requires Adler.AreBytes(mem) && |mem| >= 16
    ensures r == CheckedIn(mem, utf8, fuel)
    ensures forall root: Node :: ListAt(mem, [root], 16) && Full([root]) && fuel >= Need([root]) ==>
      r == Some(if Adler.Checksum(mem[12..]) != U32At(mem, 8) then Err(Invalid) else Checked(root, utf8))
  {
    WrittenChecked(mem, utf8, fuel);
    hide U32At, Adler.Checksum, CheckVisitor, ListAt;
    var fsCsum := U32At(mem, 8);
    var csum := Adler.Compute(mem[12..]);
    if csum != fsCsum {
      return Some(Err(Invalid));
    }
    var out := VisitR(mem, CheckVisitor(utf8), Stats(0, 0, 0, 0), 16, fuel);
    if out.None? {
      return None;
    }
    match out.value.1 {
      case Err(error) => return Some(Err(error));
      case Ok(_) => return Some(Ok(out.value.0));
    }
  }

  lemma WrittenChecked(mem: seq<nat>, utf8: seq<nat> -> bool, fuel: nat)
    requires |mem| >= 16
    ensures forall root: Node :: ListAt(mem, [root], 16) && Full([root]) && fuel >= Need([root]) ==>
      CheckedIn(mem, utf8, fuel)
        == Some(if Adler.Checksum(mem[12..]) != U32At(mem, 8) then Err(Invalid) else Checked(root, utf8))
  {
    forall root: Node | ListAt(mem, [root], 16) && Full([root]) && fuel >= Need([root])
      ensures CheckedIn(mem, utf8, fuel)
        == Some(if Adler.Checksum(mem[12..]) != U32At(mem, 8) then Err(Invalid) else Checked(root, utf8))
    {
      WrittenWalk(mem, [root], 16, CheckVisitor(utf8), Stats(0, 0, 0, 0), fuel);
      hide ListAt, Walk, WalkBytes, CheckVisitor, Adler.Checksum, U32At;
    }
  }

  // ---------- Opening ----------

  /** `Fs::from_rom`, for a ROM of which every byte can be read; sums beyond 32 bits panic. */
  method FromRom(rom: seq<nat>, fsOff: nat, fsLen: nat) returns (r: Result<seq<nat>, SysError>)
    requires |rom| == ROM_LEN && Adler.AreBytes(rom) && fsOff < U32 && fsLen < U32
    ensures r == Opened(rom, fsOff, fsLen)
  {
    if ROM_BASE + fsOff + fsLen >= U32 {
      return Err(Panic);
    }
    if !InRom(ROM_BASE + fsOff) || !InRom(ROM_BASE + fsOff + fsLen) {
      return Err(Invalid);
    }
    if fsLen < 32 {
      return Err(Invalid);
    }
    var hdr := rom[fsOff..fsOff + fsLen];
    if hdr[0..4] != MAGIC {
      return Err(Invalid);
    }
    var l := U32At(hdr, 4) + 16;
    if l >= U32 {
      return Err(Panic);
    }
    if l > fsLen {
      return Err(Invalid);
    }
    return Ok(rom[fsOff..fsOff + l]);
  }

  /** The image, if all of it lies in the ROM before its last byte, and its header says so. */
  function Opened(rom: seq<nat>, fsOff: nat, fsLen: nat): Result<seq<nat>, SysError> {
    if ROM_BASE + fsOff + fsLen >= U32 then Err(Panic)
    else if fsOff + fsLen >= ROM_LEN || fsOff + fsLen > |rom| || fsLen < 32 then Err(Invalid)
    else
      var hdr := rom[fsOff..fsOff + fsLen];
      if hdr[0..4] != MAGIC then Err(Invalid)
      else if U32At(hdr, 4) + 16 >= U32 then Err(Panic)
      else if U32At(hdr, 4) + 16 > fsLen then Err(Invalid)
      else Ok(rom[fsOff..fsOff + U32At(hdr, 4) + 16])
  }

  /**
   * What can be opened: a place that ends before the ROM does and has room for a header, with the magic
   * number and a length that fits; and what is opened is the bytes that the length says.
   */
  lemma OpenedIff(rom: seq<nat>, fsOff: nat, fsLen: nat)
    requires |rom| == ROM_LEN && fsOff < U32 && fsLen < U32
    ensures var r := Opened(rom, fsOff, fsLen);
      && (r.Ok? <==>
            && fsOff + fsLen < ROM_LEN && fsLen >= 32
            && rom[fsOff] == 'N' as nat && rom[fsOff + 1] == 'R' as nat
            && rom[fsOff + 2] == 'F' as nat && rom[fsOff + 3] == 'S' as nat
            && U32At(rom, fsOff + 4) + 16 < U32 && U32At(rom, fsOff + 4) + 16 <= fsLen)
      && (r.Ok? ==> r.value == rom[fsOff..fsOff + U32At(rom, fsOff + 4) + 16])
      && (r == Err(Panic) <==>
            0x2000_0000 + fsOff + fsLen >= 0x1_0000_0000
            || (fsOff + fsLen < ROM_LEN && fsLen >= 32 && rom[fsOff..fsOff + 4] == MAGIC
                && U32At(rom, fsOff + 4) + 16 >= 0x1_0000_0000))
      && (r.Err? ==> r.error == Panic || r.error == Invalid)
  {
    if fsOff + fsLen < ROM_LEN && fsLen >= 32 {
      var hdr, m := rom[fsOff..fsOff + fsLen], rom[fsOff..fsOff + 4];
      assert hdr[0..4] == m && U32At(hdr, 4) == U32At(rom, fsOff + 4);
      assert m[0] == rom[fsOff] && m[1] == rom[fsOff + 1] && m[2] == rom[fsOff + 2] && m[3] == rom[fsOff + 3];
      assert m == MAGIC <==> m[0] == MAGIC[0] && m[1] == MAGIC[1] && m[2] == MAGIC[2] && m[3] == MAGIC[3];
    }
  }

  /** Where there is an entry; an end beyond 32 bits panics before it is compared. */
  lemma EntryAtIs(mem: seq<nat>, pos: nat)
    ensures EntryAt(mem, pos).Ok? <==> pos > 0 && pos % 16 == 0 && pos + 32 < 0x1_0000_0000 && pos + 32 <= |mem|
    ensures EntryAt(mem, pos) == Err(Panic) <==> pos > 0 && pos % 16 == 0 && pos + 32 >= 0x1_0000_0000
    ensures EntryAt(mem, pos).Err? ==> EntryAt(mem, pos).error == Panic || EntryAt(mem, pos).error == Invalid
  {}

  /** The same for the contents of an entry: files that end in the image have them. */
  lemma ContentsAtIs(mem: seq<nat>, pos: nat)
    requires pos + HEADER_LEN <= |mem|
    ensures var end := pos + 32 + U32At(mem, pos + 4);
      && (ContentsAt(mem, pos).Ok? <==> mem[pos] % 16 == 2 && end < 0x1_0000_0000 && end <= |mem|)
      && (ContentsAt(mem, pos).Ok? ==> ContentsAt(mem, pos).value == mem[pos + 32..end])
      && (ContentsAt(mem, pos) == Err(Panic) <==> end >= 0x1_0000_0000)
  {
    hide U32At;
  }

  /** A name is what is before the first NUL, or all there is. */
  lemma {:induction false} UpToNulIs(s: seq<nat>)
    ensures var name := UpToNul(s); NoNul(name) && name <= s && (|name| < |s| ==> s[|name|] == 0)
  {
    if s != [] && s[0] != 0 { UpToNulIs(s[1..]); }
  }

  /** The length field of a directory counts its entries, though the reader never asks. */
  lemma DirectoryLength(mem: seq<nat>, n: Node, pos: nat, last: bool)
    requires NodeAtPos(mem, n, pos, last) && n.Dir?
    ensures pos + HEADER_LEN <= |mem| && U32At(mem, pos + 4) == |n.entries|
  {
    EntryView(mem, n, pos, last);
    FieldsView(mem, n, pos, last);
    hide NodeAtPos, U32At;
  }
}
