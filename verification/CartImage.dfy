/**
 * The cartridge filesystem as multitool/src/cart.rs writes it: what the bytes of a tree are, and
 * `FsEntry::dump`, `write_filename`, `Cart::load_fs` and `add_op`, which grow a buffer and patch it.
 * Bytes are numbers below 256.
 */
module CartImage {
  import opened Arith
  import Adler

  const NAME_LEN: nat := 16
  const HEADER_LEN: nat := 32
  const DIRECTORY: nat := 1
  const FILE: nat := 2

  /** A directory listing: what `FsEntry::from_path` finds on disk, in the order of its sort. */
  datatype Node = File(name: seq<nat>, contents: seq<nat>) | Dir(name: seq<nat>, entries: seq<Node>)

  // ---------- Bytes ----------

  function Zeros(n: nat): (s: seq<nat>)
    ensures |s| == n && forall i :: 0 <= i < n ==> s[i] == 0
  {
    seq(n, _ => 0)
  }

  /** The low 32 bits of a number, least significant byte first. */
  function Le32(n: nat): (s: seq<nat>)
    ensures |s| == 4 && Adler.AreBytes(s)
  {
    [n % 0x100, n / 0x100 % 0x100, n / 0x1_0000 % 0x100, n / 0x100_0000 % 0x100]
  }

  function U32At(mem: seq<nat>, p: nat): nat
    requires p + 4 <= |mem|
  {
    mem[p] + 0x100 * mem[p + 1] + 0x1_0000 * mem[p + 2] + 0x100_0000 * mem[p + 3]
  }

  lemma Le32RoundTrip(n: nat)
    requires n < U32
    ensures U32At(Le32(n), 0) == n
  {
    assert n == 0x100 * (n / 0x100) + n % 0x100;
    assert n / 0x100 == 0x100 * (n / 0x1_0000) + n / 0x100 % 0x100;
    assert n / 0x1_0000 == 0x100 * (n / 0x100_0000) + n / 0x1_0000 % 0x100;
  }

  /** Entries lie at multiples of 16. */
  predicate Aligned(n: nat) { n % 16 == 0 }

  lemma AlignedHeader(n: nat)
    requires Aligned(n)
    ensures Aligned(n + HEADER_LEN)
  {}

  lemma AlignedSum(a: nat, b: nat)
    requires Aligned(a) && Aligned(b)
    ensures Aligned(a + b)
  {
    DivModUnique(a + b, 16, a / 16 + b / 16, 0);
  }

  function AlignUp(n: nat, a: nat): (r: nat)
    requires a > 0
    ensures n <= r < n + a && r % a == 0
  {
    AlignUpIs(n, a);
    (n + a - 1) / a * a
  }

  lemma AlignUpIs(n: nat, a: nat)
    requires a > 0
    ensures n <= (n + a - 1) / a * a < n + a && (n + a - 1) / a * a % a == 0
  {
    var q := (n + a - 1) / a;
    assert n + a - 1 == a * q + (n + a - 1) % a;
    assert a * q == q * a;
    DivModUnique(q * a, a, q, 0);
  }

  function Padded(name: seq<nat>): seq<nat> {
    name + Zeros(if |name| < NAME_LEN then NAME_LEN - |name| else 0)
  }

  // ---------- The bytes of a tree ----------

  function TypeCode(n: Node): nat { if n.File? then FILE else DIRECTORY }

  function Length(n: Node): nat { if n.File? then |n.contents| else |n.entries| }

  /** The checksum field: only files have one. */
  function Csum(n: Node): nat { if n.File? then Adler.Checksum(n.contents) else 0 }

  function Size(n: Node): (s: nat)
    ensures s >= HEADER_LEN && Aligned(s)
    decreases n
  {
    if n.File? then AlignUp(HEADER_LEN + |n.contents|, 16)
    else
      AlignedSum(HEADER_LEN, SizeOfList(n.entries));
      HEADER_LEN + SizeOfList(n.entries)
  }

  function SizeOfList(l: seq<Node>): (s: nat)
    ensures Aligned(s)
    decreases l
  {
    if l == [] then 0
    else
      AlignedSum(Size(l[0]), SizeOfList(l[1..]));
      Size(l[0]) + SizeOfList(l[1..])
  }

  /** The header of an entry after its first word. */
  function HeaderRest(n: Node, csum: nat): seq<nat> {
    Le32(Length(n)) + (Le32(csum) + (Zeros(4) + Padded(n.name)))
  }

  /** The first 32 bytes of an entry; `next` is 0 for the last entry of a directory. */
  function Header(n: Node, next: nat): seq<nat> {
    Le32(next + TypeCode(n)) + HeaderRest(n, Csum(n))
  }

  /** What follows the header, for a payload at position `base`. */
  function Payload(n: Node, base: nat): seq<nat>
    decreases n, 0
  {
    if n.File? then n.contents + Zeros(AlignUp(HEADER_LEN + |n.contents|, 16) - HEADER_LEN - |n.contents|)
    else EncodeList(n.entries, base)
  }

  function Encode(n: Node, base: nat, last: bool): seq<nat>
    decreases n, 1
  {
    Header(n, if last then 0 else base + Size(n)) + Payload(n, base + HEADER_LEN)
  }

  function EncodeList(l: seq<Node>, base: nat): seq<nat>
    decreases l
  {
    if l == [] then [] else Encode(l[0], base, |l| == 1) + EncodeList(l[1..], base + Size(l[0]))
  }

  /** The whole filesystem. */
  function Image(root: Node): seq<nat> {
    var body := Zeros(4) + Encode(root, 16, true);
    MAGIC + Le32(|body| - 4) + Le32(Adler.Checksum(body)) + body
  }

  const MAGIC: seq<nat> := ['N' as nat, 'R' as nat, 'F' as nat, 'S' as nat]

  /** Names that the fixed field can hold. */
  predicate NamesFit(n: Node)
    decreases n
  {
    |n.name| <= NAME_LEN && (n.Dir? ==> AllNamesFit(n.entries))
  }

  predicate AllNamesFit(l: seq<Node>)
    decreases l
  {
    l == [] || (NamesFit(l[0]) && AllNamesFit(l[1..]))
  }

  lemma {:induction false} EncodeSize(n: Node, base: nat, last: bool)
    requires NamesFit(n)
    ensures |Encode(n, base, last)| == Size(n)
    decreases n
  {
    if n.Dir? { EncodeListSize(n.entries, base + HEADER_LEN); }
  }

  lemma {:induction false} EncodeListSize(l: seq<Node>, base: nat)
    requires AllNamesFit(l)
    ensures |EncodeList(l, base)| == SizeOfList(l)
    decreases l
  {
    if l != [] {
      EncodeSize(l[0], base, |l| == 1);
      EncodeListSize(l[1..], base + Size(l[0]));
    }
  }

  // ---------- The writer ----------

  /** Entries one after the other, each pointing to the next, the last of them too. */
  function OpenList(l: seq<Node>, base: nat, n: nat): seq<nat>
    requires n <= |l|
  {
    if n == 0 then [] else OpenList(l, base, n - 1) + Encode(l[n - 1], base + SizeUpTo(l, n - 1), false)
  }

  function SizeUpTo(l: seq<Node>, n: nat): (s: nat)
    requires n <= |l|
    ensures Aligned(s)
  {
    if n == 0 then 0
    else
      AlignedSum(SizeUpTo(l, n - 1), Size(l[n - 1]));
      SizeUpTo(l, n - 1) + Size(l[n - 1])
  }

  lemma {:induction false} OpenListSize(l: seq<Node>, base: nat, n: nat)
    requires n <= |l| && AllNamesFit(l)
    ensures |OpenList(l, base, n)| == SizeUpTo(l, n)
  {
    hide Encode, Size;
    if n > 0 {
      OpenListSize(l, base, n - 1);
      NamesFitAt(l, n - 1);
      EncodeSize(l[n - 1], base + SizeUpTo(l, n - 1), false);
    }
  }

  lemma {:induction false} NamesFitAt(l: seq<Node>, i: nat)
    requires i < |l| && AllNamesFit(l)
    ensures NamesFit(l[i])
  {
    if i > 0 { NamesFitAt(l[1..], i - 1); }
  }

  lemma {:induction false} NamesFitAll(l: seq<Node>, i: nat)
    requires i < |l| && !NamesFit(l[i])
    ensures !AllNamesFit(l)
  {
    if i > 0 { NamesFitAll(l[1..], i - 1); }
  }

  lemma {:induction false} NamesFitEach(l: seq<Node>)
    requires forall i :: 0 <= i < |l| ==> NamesFit(l[i])
    ensures AllNamesFit(l)
  {
    if l != [] { NamesFitEach(l[1..]); }
  }

  lemma ListStep(l: seq<Node>, base: nat, n: nat)
    requires n + 1 < |l|
    ensures EncodeList(l[n..], base) == Encode(l[n], base, false) + EncodeList(l[n + 1..], base + Size(l[n]))
  {
    hide Encode, Size;
    assert l[n..][1..] == l[n + 1..] && l[n..][0] == l[n];
  }

  /** The open list of a prefix, followed by the closed list of the rest, is the closed list. */
  lemma {:induction false} CloseList(l: seq<Node>, base: nat, n: nat)
    requires n < |l|
    ensures EncodeList(l, base) == OpenList(l, base, n) + EncodeList(l[n..], base + SizeUpTo(l, n))
  {
    hide Encode, Size, EncodeList;
    if n == 0 {
      assert l[0..] == l;
    } else {
      CloseList(l, base, n - 1);
      var here := base + SizeUpTo(l, n - 1);
      ListStep(l, here, n - 1);
      Join(OpenList(l, base, n - 1), Encode(l[n - 1], here, false), EncodeList(l[n..], here + Size(l[n - 1])));
    }
  }

  lemma CloseListLast(l: seq<Node>, base: nat)
    requires l != []
    ensures var n := |l| - 1;
      EncodeList(l, base) == OpenList(l, base, n) + Encode(l[n], base + SizeUpTo(l, n), true)
  {
    hide Encode, Size;
    var n := |l| - 1;
    CloseList(l, base, n);
    assert l[n..] == [l[n]];
    assert EncodeList(l[n..], base + SizeUpTo(l, n)) == Encode(l[n], base + SizeUpTo(l, n), true) + [];
  }

  lemma OpenListLast(l: seq<Node>, base: nat, pre: seq<nat>)
    requires l != []
    ensures var n := |l| - 1;
      pre + OpenList(l, base, |l|) == pre + OpenList(l, base, n) + Encode(l[n], base + SizeUpTo(l, n), false)
  {
    hide Encode, Size;
  }

  lemma EmptyList(base: nat)
    ensures EncodeList([], base) == OpenList([], base, 0) == []
  {}

  /** `data` with the bytes from `pos` on overwritten. */
  function Splice(data: seq<nat>, pos: nat, bytes: seq<nat>): (r: seq<nat>)
    requires pos + |bytes| <= |data|
    ensures |r| == |data|
  {
    data[..pos] + bytes + data[pos + |bytes|..]
  }

  lemma SpliceJoin(data: seq<nat>, pos: nat, a: seq<nat>, b: seq<nat>)
    requires pos + |a| + |b| <= |data|
    ensures Splice(Splice(data, pos, a), pos + |a|, b) == Splice(data, pos, a + b)
  {}

  /** What overwriting the bytes `b` does. */
  lemma PatchIs(a: seq<nat>, b: seq<nat>, c: seq<nat>, bytes: seq<nat>)
    requires |b| == |bytes|
    ensures Splice(a + b + c, |a|, bytes) == a + bytes + c
  {}

  lemma Regroup(a: seq<nat>, b: seq<nat>, c: seq<nat>, d: seq<nat>)
    ensures a + (b + c + d) == a + b + (c + d)
  {}

  /** Erasing the next pointer of a header keeps its type. */
  lemma EraseIs(next: nat, code: nat)
    requires Aligned(next) && code < 16
    ensures [Le32(next + code)[0] % 16, 0, 0, 0] == Le32(code)
  {
    var x := next + code;
    assert x == 0x100 * (x / 0x100) + x % 0x100;
    assert next == 16 * (next / 16);
    DivModUnique(x % 0x100, 16, next / 16 - 16 * (x / 0x100), code);
    SmallCode(code);
  }

  /** The pieces that `dump` puts together are the bytes of the entry. */
  lemma Assembled(n: Node, base: nat, p: seq<nat>)
    requires NamesFit(n) && p == if n.File? then n.contents else EncodeList(n.entries, base + HEADER_LEN)
    ensures var body := HeaderRest(n, Csum(n)) + p;
      && AlignUp(4 + |body|, 16) == Size(n)
      && Le32(base + Size(n) + TypeCode(n)) + (body + Zeros(Size(n) - 4 - |body|)) == Encode(n, base, false)
  {
    PayloadSize(n, base, p);
    EncodeIs(n, base);
    hide Le32, HeaderRest, Payload, Size, AlignUp, NamesFit, Csum, TypeCode, Encode, Zeros;
    var pad := Zeros(Size(n) - HEADER_LEN - |p|);
    Regroup(Le32(base + Size(n) + TypeCode(n)), HeaderRest(n, Csum(n)), p, pad);
  }

  lemma EncodeIs(n: Node, base: nat)
    requires NamesFit(n)
    ensures |HeaderRest(n, Csum(n))| == 28
    ensures Encode(n, base, false)
         == Le32(base + Size(n) + TypeCode(n)) + HeaderRest(n, Csum(n)) + Payload(n, base + HEADER_LEN)
  {
    hide Le32, Payload, Size, Csum, TypeCode;
  }

  lemma PayloadSize(n: Node, base: nat, p: seq<nat>)
    requires NamesFit(n) && p == if n.File? then n.contents else EncodeList(n.entries, base + HEADER_LEN)
    ensures AlignUp(HEADER_LEN + |p|, 16) == Size(n)
    ensures Payload(n, base + HEADER_LEN) == p + Zeros(Size(n) - HEADER_LEN - |p|)
  {
    hide EncodeList, SizeOfList, AlignUp;
    if n.Dir? {
      EncodeListSize(n.entries, base + HEADER_LEN);
      AlignedAlready(Size(n));
      assert p + Zeros(0) == p;
    }
  }

  lemma SmallCode(code: nat)
    requires code < 16
    ensures Le32(code) == [code, 0, 0, 0]
  {}

  lemma AlignedAlready(n: nat)
    requires Aligned(n)
    ensures AlignUp(n, 16) == n
  {}

  lemma AlignUpShifts(a: nat, n: nat)
    requires Aligned(a)
    ensures AlignUp(a + n, 16) == a + AlignUp(n, 16)
  {
    DivModUnique(a + n + 15, 16, a / 16 + (n + 15) / 16, (n + 15) % 16);
  }

  /** Unused space before the filesystem. */
  function Filler(n: nat): (s: seq<nat>)
    ensures |s| == n
  {
    seq(n, _ => 0xff)
  }

  const FSM: seq<nat> := ['%' as nat, 'F' as nat, 'S' as nat, 'M' as nat]

  /** A cartridge with operation number `i` of its header script set. */
  function WithOp(data: seq<nat>, i: nat, op: seq<nat>, p0: nat, p1: nat, p2: nat): seq<nat>
    requires |data| >= 0x100 && i < 16 && |op| == 4
  {
    Splice(data, 16 * i, op + Le32(p0) + Le32(p1) + Le32(p2))
  }

  /** A cartridge with a filesystem after its other data, and operation `i` saying where. */
  function WithFs(data: seq<nat>, i: nat, root: Node): seq<nat>
    requires |data| >= 0x100 && i < 16
  {
    var fsStart := AlignUp(|data|, 1024);
    WithOp(data + Filler(fsStart - |data|), i, FSM, fsStart, |Image(root)|, 0) + Image(root)
  }

  /** Setting an operation does not touch what follows the header. */
  lemma OpBefore(a: seq<nat>, b: seq<nat>, i: nat, op: seq<nat>, p0: nat, p1: nat, p2: nat)
    requires |a| >= 0x100 && i < 16 && |op| == 4
    ensures WithOp(a + b, i, op, p0, p1, p2) == WithOp(a, i, op, p0, p1, p2) + b
  {
    hide Le32;
  }

  lemma Join(a: seq<nat>, b: seq<nat>, c: seq<nat>)
    ensures a + b + c == a + (b + c)
  {}

  lemma ImageIs(root: Node)
    ensures var body := Zeros(4) + Encode(root, 16, true);
      Image(root) == MAGIC + Le32(|body| - 4) + Le32(Adler.Checksum(body)) + body && |Image(root)| == |body| + 12
  {
    hide Encode, Le32, Adler.Checksum;
  }

  lemma EightZeros(a: seq<nat>, b: seq<nat>)
    ensures a + Zeros(8) + b == a + Zeros(4) + (Zeros(4) + b)
  {
    assert Zeros(8) == Zeros(4) + Zeros(4);
  }

  lemma Join4(a: seq<nat>, b: seq<nat>, c: seq<nat>, d: seq<nat>, e: seq<nat>)
    ensures a + b + c + d + e == a + (b + c + d + e)
  {}

  lemma AlignedTo1024(n: nat)
    requires n % 1024 == 0
    ensures Aligned(n)
  {}

  class Cart {
    /** The cartridge so far; it begins with a script of up to 16 operations. */
    var buf: seq<nat>
    var opIndex: nat

    constructor (data: seq<nat>, ops: nat)
      ensures buf == data && opIndex == ops
    {
      buf, opIndex := data, ops;
    }

    /** Overwrites bytes in place: `b` between `a` and `c`. */
    method Patch(pos: nat, bytes: seq<nat>, ghost a: seq<nat>, ghost b: seq<nat>, ghost c: seq<nat>)
      requires buf == a + b + c && |a| == pos && |b| == |bytes|
      modifies this`buf
      ensures buf == a + bytes + c
    {
      PatchIs(a, b, c, bytes);
      buf := Splice(buf, pos, bytes);
    }

    /** `write_filename`. */
    method WriteFilename(name: seq<nat>) returns (ok: bool)
      modifies this`buf
      ensures ok == (|name| <= NAME_LEN)
      ensures ok ==> buf == old(buf) + Padded(name)
      ensures !ok ==> buf == old(buf)
    {
      if |name| > NAME_LEN {
        return false;
      }
      buf := buf + name;
      for i := |name| to NAME_LEN
        invariant buf == old(buf) + name + Zeros(i - |name|)
      {
        buf := buf + [0];
        assert Zeros(i + 1 - |name|) == Zeros(i - |name|) + [0];
      }
      return true;
    }

    /** The header of an entry, with blanks for the next pointer and the checksum. */
    method DumpHeader(n: Node) returns (ok: bool)
      modifies this`buf
      ensures ok == (|n.name| <= NAME_LEN)
      ensures ok ==> buf == old(buf) + Zeros(4) + HeaderRest(n, 0) && |buf| == |old(buf)| + HEADER_LEN
    {
      buf := buf + [0, 0, 0, 0];
      buf := buf + Le32(Length(n));
      buf := buf + [0, 0, 0, 0];
      buf := buf + [0, 0, 0, 0];
      ok := WriteFilename(n.name);
      assert Le32(0) == Zeros(4) == [0, 0, 0, 0];
    }

    /** The contents of a file, and its checksum into the header. */
    method DumpContents(n: Node, start: nat, ghost pre: seq<nat>)
      requires n.File?
      requires |pre| == start && buf == pre + Zeros(4) + HeaderRest(n, 0)
      modifies this`buf
      ensures buf == pre + Zeros(4) + (HeaderRest(n, Csum(n)) + n.contents)
    {
      buf := buf + n.contents;
      var csum := Adler.Checksum(n.contents);
      hide Le32, Zeros, Padded, Adler.Checksum;
      ghost var a, b, c := pre + Zeros(4) + Le32(Length(n)), Le32(0), Zeros(4) + Padded(n.name) + n.contents;
      assert buf == a + b + c;
      Patch(start + 8, Le32(csum), a, b, c);
      assert a + Le32(csum) + c == pre + Zeros(4) + (HeaderRest(n, csum) + n.contents);
    }

    /** Padding at the end of an entry, and then its next pointer and type. */
    method Finish(start: nat, fsStart: nat, etype: nat, ghost pre: seq<nat>, ghost body: seq<nat>)
      requires |pre| == start && buf == pre + Zeros(4) + body
      requires fsStart <= start && Aligned(start)
      modifies this`buf
      ensures var size := AlignUp(4 + |body|, 16);
        buf == pre + Le32(start - fsStart + size + etype) + (body + Zeros(size - 4 - |body|))
    {
      AlignUpShifts(start, 4 + |body|);
      hide AlignUp;
      var nextStart := AlignUp(|buf|, 16);
      buf := buf + Zeros(nextStart - |buf|);
      ghost var tail := body + Zeros(AlignUp(4 + |body|, 16) - 4 - |body|);
      assert buf == pre + Zeros(4) + tail;
      var nt := nextStart - fsStart + etype;
      Patch(start, Le32(nt), pre, Zeros(4), tail);
    }

    /** Erases the next pointer of the header at `pos`; only the entry type stays. */
    method EraseNext(pos: nat)
      requires pos + 4 <= |buf|
      modifies this`buf
      ensures buf == Splice(old(buf), pos, [old(buf)[pos] % 16, 0, 0, 0])
    {
      buf := buf[pos := buf[pos] % 16];
      buf := buf[pos + 1 := 0];
      buf := buf[pos + 2 := 0];
      buf := buf[pos + 3 := 0];
    }

    /** Turns the last entry of a directory into one without a next pointer. */
    method CloseLast(pos: nat, ghost pre: seq<nat>, ghost n: Node, ghost base: nat)
      requires |pre| == pos && Aligned(base) && buf == pre + Encode(n, base, false)
      modifies this`buf
      ensures buf == pre + Encode(n, base, true)
    {
      hide Le32, Payload, HeaderRest, Size, Aligned;
      ghost var word := Le32(base + Size(n) + TypeCode(n));
      ghost var rest := HeaderRest(n, Csum(n)) + Payload(n, base + HEADER_LEN);
      assert Encode(n, base, false) == word + rest;
      assert Encode(n, base, true) == Le32(TypeCode(n)) + rest;
      AlignedSum(base, Size(n));
      EraseIs(base + Size(n), TypeCode(n));
      EraseNext(pos);
      PatchIs(pre, word, rest, Le32(TypeCode(n)));
      assert pre + (word + rest) == pre + word + rest;
      assert pre + (Le32(TypeCode(n)) + rest) == pre + Le32(TypeCode(n)) + rest;
    }

    /**
     * `FsEntry::dump`: appends the bytes of a tree, with positions relative to `fsStart`. Fails
     * when some name does not fit its field.
     */
    method Dump(n: Node, fsStart: nat) returns (ok: bool)
      requires fsStart <= |buf| && Aligned(|buf| - fsStart) && Aligned(|buf|)
      modifies this`buf
      ensures ok == NamesFit(n)
      ensures ok ==> buf == old(buf) + Encode(n, |old(buf)| - fsStart, false)
      decreases n, 1
    {
      hide Encode, EncodeList, HeaderRest, Aligned, Adler.Checksum, Zeros, AlignUp, Le32;
      var start := |buf|;
      ghost var pre, base := buf, |buf| - fsStart;
      AlignedHeader(|buf|);
      AlignedHeader(base);
      ok := DumpHeader(n);
      if !ok {
        return;
      }
      if n.File? {
        DumpContents(n, start, pre);
        Finish(start, fsStart, FILE, pre, HeaderRest(n, Csum(n)) + n.contents);
        Assembled(n, base, n.contents);
      } else {
        ok := DumpEntries(n.entries, fsStart);
        if !ok {
          return;
        }
        ghost var list := EncodeList(n.entries, base + HEADER_LEN);
        assert pre + Zeros(4) + HeaderRest(n, 0) + list == pre + Zeros(4) + (HeaderRest(n, 0) + list);
        Finish(start, fsStart, DIRECTORY, pre, HeaderRest(n, 0) + list);
        Assembled(n, base, list);
      }
    }

    /** The entries of a directory, each pointing past its end, and where the last one begins. */
    method DumpOpen(l: seq<Node>, fsStart: nat) returns (ok: bool, lastHeader: nat)
      requires fsStart <= |buf| && Aligned(|buf| - fsStart) && Aligned(|buf|)
      modifies this`buf
      ensures ok == AllNamesFit(l)
      ensures ok ==> buf == old(buf) + OpenList(l, |old(buf)| - fsStart, |l|)
      ensures ok && l != [] ==> lastHeader == |old(buf)| + SizeUpTo(l, |l| - 1)
      decreases l, 2
    {
      hide Encode, Size, Aligned;
      lastHeader := 0;
      ghost var pre, base := buf, |buf| - fsStart;
      for i := 0 to |l|
        invariant buf == pre + OpenList(l, base, i) && |buf| == |pre| + SizeUpTo(l, i)
        invariant i > 0 ==> lastHeader == |pre| + SizeUpTo(l, i - 1)
        invariant forall j :: 0 <= j < i ==> NamesFit(l[j])
      {
        lastHeader := |buf|;
        AlignedSum(|pre|, SizeUpTo(l, i));
        AlignedSum(base, SizeUpTo(l, i));
        var fits := Dump(l[i], fsStart);
        if !fits {
          NamesFitAll(l, i);
          return false, lastHeader;
        }
        EncodeSize(l[i], base + SizeUpTo(l, i), false);
      }
      NamesFitEach(l);
      return true, lastHeader;
    }

    /** The entries of a directory. */
    method DumpEntries(l: seq<Node>, fsStart: nat) returns (ok: bool)
      requires fsStart <= |buf| && Aligned(|buf| - fsStart) && Aligned(|buf|)
      modifies this`buf
      ensures ok == AllNamesFit(l)
      ensures ok ==> buf == old(buf) + EncodeList(l, |old(buf)| - fsStart)
      decreases l, 3
    {
      hide Encode, Size, Aligned, EncodeList, OpenList, AllNamesFit;
      var lastHeader;
      ghost var pre, base := buf, |buf| - fsStart;
      ok, lastHeader := DumpOpen(l, fsStart);
      EmptyList(base);
      if ok && l != [] {
        var n := |l| - 1;
        CloseListLast(l, base);
        AlignedSum(base, SizeUpTo(l, n));
        OpenListSize(l, base, n);
        OpenListLast(l, base, pre);
        CloseLast(lastHeader, pre + OpenList(l, base, n), l[n], base + SizeUpTo(l, n));
      }
    }

    /** `add_op`: one more operation in the header, which has room for 16. */
    method AddOp(op: seq<nat>, p0: nat, p1: nat, p2: nat) returns (ok: bool)
      requires |buf| >= 0x100 && |op| == 4
      modifies this
      ensures ok == (old(opIndex) < 16)
      ensures ok ==> opIndex == old(opIndex) + 1 && buf == WithOp(old(buf), old(opIndex), op, p0, p1, p2)
      ensures !ok ==> buf == old(buf) && opIndex == old(opIndex)
    {
      var off := opIndex * 16;
      if off >= 0x100 {
        return false;
      }
      opIndex := opIndex + 1;
      hide Le32, Splice;
      SpliceJoin(buf, off, op, Le32(p0));
      SpliceJoin(buf, off, op + Le32(p0), Le32(p1));
      SpliceJoin(buf, off, op + Le32(p0) + Le32(p1), Le32(p2));
      buf := Splice(buf, off, op);
      buf := Splice(buf, off + 4, Le32(p0));
      buf := Splice(buf, off + 8, Le32(p1));
      buf := Splice(buf, off + 12, Le32(p2));
      return true;
    }

    /** The filesystem header, its length and checksum still blank, and the tree. */
    method DumpFs(root: Node, fsStart: nat) returns (ok: bool)
      requires |buf| == fsStart && Aligned(fsStart)
      modifies this`buf
      ensures ok == NamesFit(root)
      ensures ok ==> buf == old(buf) + MAGIC + Zeros(8) + (Zeros(4) + Encode(root, 16, true))
    {
      hide Encode, NamesFit;
      ghost var pre := buf;
      buf := buf + MAGIC;
      buf := buf + [0, 0, 0, 0];
      buf := buf + [0, 0, 0, 0];
      buf := buf + [0, 0, 0, 0];
      assert buf == pre + MAGIC + Zeros(8) + Zeros(4);
      var topHeader := |buf|;
      AlignedSum(fsStart, 16);
      ok := Dump(root, fsStart);
      if !ok {
        return;
      }
      CloseLast(topHeader, pre + MAGIC + Zeros(8) + Zeros(4), root, 16);
      Join(pre + MAGIC + Zeros(8), Zeros(4), Encode(root, 16, true));
    }

    /** The length and checksum of the filesystem at `fsStart`. */
    method FillHeader(fsStart: nat, ghost pre: seq<nat>, ghost body: seq<nat>) returns (fsLen: nat)
      requires |pre| == fsStart && buf == pre + MAGIC + Zeros(8) + body && |body| >= 4
      modifies this`buf
      ensures fsLen == |body| - 4
      ensures buf == pre + (MAGIC + Le32(fsLen) + Le32(Adler.Checksum(body)) + body)
    {
      hide Le32, Adler.Checksum, Zeros;
      var fs := buf[fsStart..];
      fsLen := |fs| - 16;
      assert fs[12..] == body;
      var csum := Adler.Checksum(fs[12..]);
      EightZeros(pre + MAGIC, body);
      Patch(fsStart + 4, Le32(fsLen), pre + MAGIC, Zeros(4), Zeros(4) + body);
      Join(pre + MAGIC + Le32(fsLen), Zeros(4), body);
      Patch(fsStart + 8, Le32(csum), pre + MAGIC + Le32(fsLen), Zeros(4), body);
      Join4(pre, MAGIC, Le32(fsLen), Le32(csum), body);
    }

    /** The filesystem at `fsStart`, complete with its length and checksum. */
    method AppendFs(root: Node, fsStart: nat) returns (ok: bool, fsLen: nat)
      requires |buf| == fsStart && Aligned(fsStart)
      modifies this`buf
      ensures ok == NamesFit(root)
      ensures ok ==> buf == old(buf) + Image(root) && fsLen + 16 == |Image(root)|
    {
      hide Encode, NamesFit, Le32, Adler.Checksum, Image, Zeros;
      ImageIs(root);
      fsLen := 0;
      ghost var pre := buf;
      ok := DumpFs(root, fsStart);
      if ok {
        fsLen := FillHeader(fsStart, pre, Zeros(4) + Encode(root, 16, true));
      }
    }

    /** `load_fs`: the filesystem at the next multiple of 1024, and an operation that points to it. */
    method LoadFs(root: Node) returns (ok: bool)
      requires |buf| >= 0x100
      modifies this
      ensures ok == (NamesFit(root) && old(opIndex) < 16)
      ensures ok ==> opIndex == old(opIndex) + 1 && buf == WithFs(old(buf), old(opIndex), root)
    {
      hide NamesFit, AlignUp, Filler, Image, WithOp, Aligned;
      var fsStart := AlignUp(|buf|, 1024);
      AlignedTo1024(fsStart);
      buf := buf + Filler(fsStart - |buf|);
      ghost var pre := buf;
      var fsLen;
      ok, fsLen := AppendFs(root, fsStart);
      if ok {
        ok := AddOp(FSM, fsStart, fsLen + 16, 0);
        if ok {
          OpBefore(pre, Image(root), old(opIndex), FSM, fsStart, fsLen + 16, 0);
        }
      }
    }
  }
}
