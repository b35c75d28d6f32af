/**
 * Reading what was written: every entry of a tree is found under its path with its contents, a walk
 * meets every entry once, and `fsck` finds nothing wrong.
 */
module CartFsTheorems {
  import opened Arith
  import opened Wrappers
  import opened MemoryMap
  import opened CartImage
  import opened CartFs
  import Adler

  // ---------- Paths ----------

  /** Children numbers from a listing down to one of its entries. */
  predicate Valid(l: seq<Node>, idx: seq<nat>)
    decreases idx
  {
    && idx != [] && idx[0] < |l|
    && (|idx| > 1 ==> l[idx[0]].Dir? && Valid(l[idx[0]].entries, idx[1..]))
  }

  function NodeOf(l: seq<Node>, idx: seq<nat>): Node
    requires Valid(l, idx)
    decreases idx
  {
    if |idx| == 1 then l[idx[0]] else NodeOf(l[idx[0]].entries, idx[1..])
  }

  /** The names on the way, which is the path. */
  function PathOf(l: seq<Node>, idx: seq<nat>): (p: Path)
    requires Valid(l, idx)
    ensures |p| == |idx|
    decreases idx
  {
    [l[idx[0]].name] + if |idx| == 1 then [] else PathOf(l[idx[0]].entries, idx[1..])
  }

  /** Where the writer put the entry. */
  function PosOf(l: seq<Node>, base: nat, idx: seq<nat>): nat
    requires Valid(l, idx)
    decreases idx
  {
    var here := base + SizeUpTo(l, idx[0]);
    if |idx| == 1 then here else PosOf(l[idx[0]].entries, here + HEADER_LEN, idx[1..])
  }

  predicate Distinct(l: seq<Node>) { forall i, j :: 0 <= i < j < |l| ==> l[i].name != l[j].name }

  /** No two siblings have the same name. */
  predicate UniqueNames(l: seq<Node>)
    decreases l
  {
    Distinct(l) && forall i :: 0 <= i < |l| ==> l[i].Dir? ==> UniqueNames(l[i].entries)
  }

  lemma {:induction false} SizeUpToRest(l: seq<Node>, n: nat)
    requires n < |l|
    ensures SizeUpTo(l, n + 1) == Size(l[0]) + SizeUpTo(l[1..], n)
  {
    hide Size;
    if n > 0 { SizeUpToRest(l, n - 1); }
  }

  /** Skipping the first entry of a listing. */
  lemma SkipFirst(l: seq<Node>, base: nat, idx: seq<nat>)
    requires Valid(l, idx) && idx[0] > 0
    ensures var idx' := [idx[0] - 1] + idx[1..];
      && Valid(l[1..], idx') && PathOf(l[1..], idx') == PathOf(l, idx) && NodeOf(l[1..], idx') == NodeOf(l, idx)
      && PosOf(l[1..], base + Size(l[0]), idx') == PosOf(l, base, idx)
  {
    SizeUpToRest(l, idx[0] - 1);
    var idx' := [idx[0] - 1] + idx[1..];
    assert l[1..][idx'[0]] == l[idx[0]] && idx'[1..] == idx[1..];
  }

  lemma UniqueRest(l: seq<Node>)
    requires UniqueNames(l) && l != []
    ensures UniqueNames(l[1..]) && (l[0].Dir? ==> UniqueNames(l[0].entries))
  {
    assert forall i :: 0 <= i < |l[1..]| ==> l[1..][i] == l[i + 1];
  }

  /** Looking up the path of an entry finds that entry. */
  lemma {:induction false} LookupFinds(l: seq<Node>, base: nat, idx: seq<nat>)
    requires Valid(l, idx) && UniqueNames(l)
    ensures Lookup(l, base, PathOf(l, idx)) == ([], Ok(Some(PosOf(l, base, idx))))
    decreases l
  {
    hide UniqueNames, Size;
    UniqueRest(l);
    var path := PathOf(l, idx);
    if idx[0] > 0 {
      FirstDiffers(l, idx[0]);
      SkipFirst(l, base, idx);
      LookupFinds(l[1..], base + Size(l[0]), [idx[0] - 1] + idx[1..]);
    } else if |idx| > 1 {
      assert path[1..] == PathOf(l[0].entries, idx[1..]);
      LookupFinds(l[0].entries, base + HEADER_LEN, idx[1..]);
    }
  }

  lemma FirstDiffers(l: seq<Node>, i: nat)
    requires UniqueNames(l) && 0 < i < |l|
    ensures l[0].name != l[i].name
  {}

  /** What the reader sees at the place of an entry is that entry. */
  lemma {:induction false} EntryVisible(mem: seq<nat>, l: seq<Node>, base: nat, idx: seq<nat>)
    requires ListAt(mem, l, base) && Valid(l, idx)
    ensures PosOf(l, base, idx) + HEADER_LEN <= |mem|
    ensures View(mem, PosOf(l, base, idx)) == ViewOf(NodeOf(l, idx))
    decreases l
  {
    hide ListAt, NodeAtPos, Size, View, ViewOf;
    ListSplits(mem, l, base);
    if idx[0] > 0 {
      SkipFirst(l, base, idx);
      EntryVisible(mem, l[1..], base + Size(l[0]), [idx[0] - 1] + idx[1..]);
    } else if |idx| > 1 {
      DirSplits(mem, l[0], base, |l| == 1);
      EntryVisible(mem, l[0].entries, base + HEADER_LEN, idx[1..]);
    } else {
      EntryView(mem, l[0], base, |l| == 1);
    }
  }

  // ---------- Paths that do not exist ----------

  /** Some entry after `idx` in its listing, or after one of the directories above it in theirs, has this name. */
  predicate LaterHas(l: seq<Node>, idx: seq<nat>, name: seq<nat>)
    requires Valid(l, idx)
    decreases idx
  {
    || (exists k :: idx[0] < k < |l| && l[k].name == name)
    || (|idx| > 1 && LaterHas(l[idx[0]].entries, idx[1..], name))
  }

  predicate HasName(l: seq<Node>, name: seq<nat>) { exists k :: 0 <= k < |l| && l[k].name == name }

  /** With one name left, a listing is searched and nothing else. */
  lemma {:induction false} LookupLast(l: seq<Node>, base: nat, name: seq<nat>)
    ensures
      if HasName(l, name) then Lookup(l, base, [name]).1 != Ok(None)
      else Lookup(l, base, [name]) == ([name], Ok(None))
    decreases l
  {
    hide Size, ViewOf;
    if l != [] {
      LookupLast(l[1..], base + Size(l[0]), name);
      ViewName(l[0]);
      if l[0].name != name && HasName(l, name) {
        var k :| 0 <= k < |l| && l[k].name == name;
        assert l[1..][k - 1] == l[k];
      }
      if l[0].name != name && HasName(l[1..], name) {
        var k :| 0 <= k < |l[1..]| && l[1..][k].name == name;
        assert l[k + 1].name == name;
      }
    }
  }

  lemma ViewName(n: Node)
    ensures ViewOf(n).name == n.name
  {}

  lemma LaterOfRest(l: seq<Node>, idx: seq<nat>, name: seq<nat>)
    requires Valid(l, idx) && idx[0] > 0 && Valid(l[1..], [idx[0] - 1] + idx[1..])
    ensures LaterHas(l[1..], [idx[0] - 1] + idx[1..], name) == LaterHas(l, idx, name)
  {
    var idx' := [idx[0] - 1] + idx[1..];
    assert idx'[1..] == idx[1..] && l[1..][idx'[0]] == l[idx[0]];
    if k :| idx[0] < k < |l| && l[k].name == name { assert l[1..][k - 1].name == name; }
    if k :| idx'[0] < k < |l[1..]| && l[1..][k].name == name { assert l[k + 1].name == name; }
  }

  lemma LaterOfFirst(l: seq<Node>, idx: seq<nat>, name: seq<nat>)
    requires Valid(l, idx) && idx[0] == 0
    ensures LaterHas(l, idx, name) == (HasName(l[1..], name) || (|idx| > 1 && LaterHas(l[0].entries, idx[1..], name)))
  {
    if k :| 0 < k < |l| && l[k].name == name { assert l[1..][k - 1].name == name; }
    if k :| 0 <= k < |l[1..]| && l[1..][k].name == name { assert l[k + 1].name == name; }
  }

  /**
   * Looking for a name that a directory does not have: the walk goes on after the directory with
   * what is left of the path, so nothing is found exactly when no later entry, there or further up,
   * happens to have that name.
   */
  lemma {:induction false} MissingName(l: seq<Node>, base: nat, idx: seq<nat>, name: seq<nat>)
    requires Valid(l, idx) && UniqueNames(l) && NodeOf(l, idx).Dir? && !HasName(NodeOf(l, idx).entries, name)
    ensures var r := Lookup(l, base, PathOf(l, idx) + [name]);
      if LaterHas(l, idx, name) then r.1 != Ok(None) else r == ([name], Ok(None))
    decreases l
  {
    hide UniqueNames, Size, HasName, LaterHas, ViewOf;
    UniqueRest(l);
    ViewName(l[0]);
    var path := PathOf(l, idx) + [name];
    if idx[0] > 0 {
      FirstDiffers(l, idx[0]);
      SkipFirst(l, base, idx);
      LaterOfRest(l, idx, name);
      MissingName(l[1..], base + Size(l[0]), [idx[0] - 1] + idx[1..], name);
    } else {
      LaterOfFirst(l, idx, name);
      LookupLast(l[1..], base + Size(l[0]), name);
      if |idx| > 1 {
        assert path[1..] == PathOf(l[0].entries, idx[1..]) + [name];
        MissingName(l[0].entries, base + HEADER_LEN, idx[1..], name);
      } else {
        assert path[1..] == [name];
        LookupLast(l[0].entries, base + HEADER_LEN, name);
      }
    }
  }

  /** In terms of `Fs::entry`: the exact condition under which such a path is reported as missing. */
  lemma MissingIsReported(root: Node, idx: seq<nat>, name: seq<nat>)
    requires Valid([root], idx) && UniqueNames([root])
    requires NodeOf([root], idx).Dir? && !HasName(NodeOf([root], idx).entries, name)
    ensures Found(root, PathOf([root], idx) + [name]) == Err(NoEnt) <==> !LaterHas([root], idx, name)
  {
    hide LaterHas, HasName, UniqueNames, NodeOf;
    MissingName([root], 16, idx, name);
    NoErrors([root], 16, PathOf([root], idx) + [name]);
  }

  lemma {:induction false} NoErrors(l: seq<Node>, base: nat, path: Path)
    ensures Lookup(l, base, path).1.Ok?
    decreases l
  {
    hide Size, ViewOf;
    if l != [] {
      var path' := PathVisitor(path, ViewOf(l[0])).0;
      NoErrors(l[1..], base + Size(l[0]), path');
      if l[0].Dir? {
        NoErrors(l[0].entries, base + HEADER_LEN, path');
        NoErrors(l[1..], base + Size(l[0]), Lookup(l[0].entries, base + HEADER_LEN, path').0);
      }
    }
  }

  /** A tree "r" with "a/x" and "b": there is no "r/a/b", but the lookup answers with "r/b". */
  lemma LookupMisleads()
    ensures var x, a, b := File([0x78], []), Dir([0x61], [File([0x78], [])]), File([0x62], []);
      var root := Dir([0x72], [a, b]);
      && Good(root) && Full([root]) && UniqueNames([root])
      && Absent([root], [[0x72], [0x61], [0x62]])
      && Found(root, [[0x72], [0x61], [0x62]]) != Err(NoEnt)
  {
    var a, b := Dir([0x61], [File([0x78], [])]), File([0x62], []);
    var root := Dir([0x72], [a, b]);
    SmallTree(a, b, root);
    var idx := [0, 0];
    assert idx[1..] == [0] && [root][0].entries[0] == a;
    assert Valid([root], idx) && NodeOf([root], idx) == a;
    assert PathOf([root], idx) + [[0x62]] == [[0x72], [0x61], [0x62]];
    assert [root][0].entries[1].name == [0x62];
    assert LaterHas([a, b], [0], [0x62]);
    MissingIsReported(root, idx, [0x62]);
    var path: Path := [[0x72], [0x61], [0x62]];
    AbsentIf([File([0x78], [])], path[1..][1..]);
    AbsentIf([a, b], path[1..]);
    AbsentIf([root], path);
  }

  lemma SmallTree(a: Node, b: Node, root: Node)
    requires a == Dir([0x61], [File([0x78], [])]) && b == File([0x62], []) && root == Dir([0x72], [a, b])
    ensures Good(root) && Full([root]) && UniqueNames([root])
  {
    GoodOne(File([0x78], []));
    GoodTwo(a, b);
    assert UniqueNames([File([0x78], [])]) && UniqueNames([a, b]);
  }

  lemma GoodOne(a: Node)
    requires Good(a) && (a.Dir? ==> a.entries != [] && Full(a.entries))
    ensures AllGood([a]) && Full([a])
  {
    hide Good;
    assert AllGood([a][1..]) && Full([a][1..]);
  }

  lemma GoodTwo(a: Node, b: Node)
    requires Good(a) && (a.Dir? ==> a.entries != [] && Full(a.entries))
    requires Good(b) && (b.Dir? ==> b.entries != [] && Full(b.entries))
    ensures AllGood([a, b]) && Full([a, b])
  {
    hide Good;
    GoodOne(b);
    assert [a, b][1..] == [b];
  }

  /** No entry of the tree has this path. */
  ghost predicate Absent(l: seq<Node>, path: Path) { forall idx :: Valid(l, idx) ==> PathOf(l, idx) != path }

  lemma AbsentIf(l: seq<Node>, path: Path)
    requires path != [] && forall k :: 0 <= k < |l| && l[k].name == path[0] ==>
      |path| > 1 && (l[k].File? || Absent(l[k].entries, path[1..]))
    ensures Absent(l, path)
  {
    forall idx | Valid(l, idx) ensures PathOf(l, idx) != path {
      if |idx| > 1 { assert PathOf(l, idx)[1..] == PathOf(l[idx[0]].entries, idx[1..]); }
    }
  }

  // ---------- What a lookup answers, for every path ----------

  /** Entry numbers `i` and up of a listing. */
  function From(i: nat, n: nat): (c: seq<seq<nat>>)
    requires i <= n
    decreases n - i
  {
    if i == n then [] else [[i]] + From(i + 1, n)
  }

  /** Places below entry `i`, given their places in its listing. */
  function Below(i: nat, c: seq<seq<nat>>): (r: seq<seq<nat>>)
    ensures |r| == |c| && forall k :: 0 <= k < |c| ==> r[k] == [i] + c[k]
  {
    seq(|c|, k requires 0 <= k < |c| => [i] + c[k])
  }

  /**
   * The entries that come into question after `idx` has matched: what is in it, if it is a
   * directory, then its later siblings, then those of the directory it is in, and so on up.
   */
  function Rest(l: seq<Node>, idx: seq<nat>): seq<seq<nat>>
    requires Valid(l, idx)
    decreases idx
  {
    var i := idx[0];
    var inside :=
      if |idx| > 1 then Rest(l[i].entries, idx[1..])
      else if l[i].Dir? then From(0, |l[i].entries|)
      else [];
    Below(i, inside) + From(i + 1, |l|)
  }

  predicate AllValid(l: seq<Node>, c: seq<seq<nat>>) { forall k :: 0 <= k < |c| ==> Valid(l, c[k]) }

  /** The first of these entries with a name, or the number of entries. */
  function FirstNamed(l: seq<Node>, c: seq<seq<nat>>, name: seq<nat>): (k: nat)
    requires AllValid(l, c)
    ensures k <= |c|
    ensures k < |c| ==> NodeOf(l, c[k]).name == name
    ensures forall j :: 0 <= j < k ==> NodeOf(l, c[j]).name != name
  {
    if c == [] || NodeOf(l, c[0]).name == name then 0
    else
      var k := FirstNamed(l, c[1..], name);
      assert forall j :: 0 < j < k + 1 ==> c[j] == c[1..][j - 1];
      k + 1
  }

  /**
   * Each name of the path leads to the first entry with that name among those in question: where
   * the chain ends, if it does not break, and what is left of the path.
   */
  function Chain(l: seq<Node>, c: seq<seq<nat>>, path: Path): (r: (Option<seq<nat>>, Path))
    requires AllValid(l, c)
    ensures r.0.Some? ==> Valid(l, r.0.value)
    ensures r.0.None? && path != [] ==> r.1 != []
    decreases |path|
  {
    if path == [] then (None, [])
    else
      var k := FirstNamed(l, c, path[0]);
      if k == |c| then (None, path)
      else if |path| == 1 then (Some(c[k]), [])
      else
        RestIsValid(l, c[k]);
        Chain(l, Rest(l, c[k]), path[1..])
  }

  lemma {:induction false} FromIsValid(l: seq<Node>, i: nat)
    requires i <= |l|
    ensures AllValid(l, From(i, |l|))
    decreases |l| - i
  {
    if i < |l| { FromIsValid(l, i + 1); }
  }

  lemma BelowIsValid(l: seq<Node>, i: nat, c: seq<seq<nat>>)
    requires i < |l| && l[i].Dir? && AllValid(l[i].entries, c)
    ensures AllValid(l, Below(i, c))
    ensures forall k :: 0 <= k < |c| ==> NodeOf(l, Below(i, c)[k]) == NodeOf(l[i].entries, c[k])
  {
    forall k | 0 <= k < |c|
      ensures Valid(l, Below(i, c)[k]) && NodeOf(l, Below(i, c)[k]) == NodeOf(l[i].entries, c[k])
    {
      assert Below(i, c)[k][1..] == c[k];
    }
  }

  lemma {:induction false} RestIsValid(l: seq<Node>, idx: seq<nat>)
    requires Valid(l, idx)
    ensures AllValid(l, Rest(l, idx))
    decreases idx
  {
    var i := idx[0];
    FromIsValid(l, i + 1);
    if |idx| > 1 {
      RestIsValid(l[i].entries, idx[1..]);
      BelowIsValid(l, i, Rest(l[i].entries, idx[1..]));
    } else if l[i].Dir? {
      FromIsValid(l[i].entries, 0);
      BelowIsValid(l, i, From(0, |l[i].entries|));
    }
  }

  lemma {:induction false} FirstNamedConcat(l: seq<Node>, a: seq<seq<nat>>, b: seq<seq<nat>>, name: seq<nat>)
    requires AllValid(l, a) && AllValid(l, b)
    ensures AllValid(l, a + b)
    ensures FirstNamed(l, a + b, name)
         == if FirstNamed(l, a, name) < |a| then FirstNamed(l, a, name) else |a| + FirstNamed(l, b, name)
  {
    hide NodeOf, Valid;
    if a == [] {
      assert a + b == b;
    } else {
      assert (a + b)[1..] == a[1..] + b;
      FirstNamedConcat(l, a[1..], b, name);
    }
  }

  lemma {:induction false} FirstNamedBelow(l: seq<Node>, i: nat, c: seq<seq<nat>>, name: seq<nat>)
    requires i < |l| && l[i].Dir? && AllValid(l[i].entries, c)
    ensures AllValid(l, Below(i, c)) && FirstNamed(l, Below(i, c), name) == FirstNamed(l[i].entries, c, name)
  {
    hide NodeOf, Valid;
    BelowIsValid(l, i, c);
    if c != [] {
      assert Below(i, c)[1..] == Below(i, c[1..]);
      FirstNamedBelow(l, i, c[1..], name);
    }
  }

  /** Where a chain that starts below entry `i` ends: there, or further on with what is left. */
  function ChainBelow(l: seq<Node>, i: nat, c: seq<seq<nat>>, path: Path): (Option<seq<nat>>, Path)
    requires i < |l| && l[i].Dir? && AllValid(l[i].entries, c)
  {
    FromIsValid(l, i + 1);
    var (r, q) := Chain(l[i].entries, c, path);
    if r.Some? then (Some([i] + r.value), q) else Chain(l, From(i + 1, |l|), q)
  }

  lemma RestBelow(l: seq<Node>, i: nat, c: seq<seq<nat>>, k: nat)
    requires i < |l| && l[i].Dir? && k < |c| && Valid(l[i].entries, c[k])
    ensures Valid(l, Below(i, c)[k])
    ensures Rest(l, Below(i, c)[k]) == Below(i, Rest(l[i].entries, c[k])) + From(i + 1, |l|)
  {
    hide From, Below;
    var place := Below(i, c)[k];
    assert place == [i] + c[k] && place[0] == i && place[1..] == c[k];
  }

  lemma {:induction false} ChainGoesOn(l: seq<Node>, i: nat, c: seq<seq<nat>>, path: Path)
    requires i < |l| && l[i].Dir? && AllValid(l[i].entries, c) && path != []
    ensures AllValid(l, Below(i, c) + From(i + 1, |l|))
    ensures Chain(l, Below(i, c) + From(i + 1, |l|), path) == ChainBelow(l, i, c, path)
    decreases |path|
  {
    hide NodeOf, FirstNamed, From, Below, Rest, Valid;
    var later := From(i + 1, |l|);
    FromIsValid(l, i + 1);
    FirstNamedBelow(l, i, c, path[0]);
    FirstNamedConcat(l, Below(i, c), later, path[0]);
    var k := FirstNamed(l[i].entries, c, path[0]);
    if k < |c| && |path| > 1 {
      RestIsValid(l[i].entries, c[k]);
      RestBelow(l, i, c, k);
      ChainGoesOn(l, i, Rest(l[i].entries, c[k]), path[1..]);
    }
  }

  /** A lookup from entry number `i` of a listing on. */
  function At(l: seq<Node>, base: nat, i: nat, path: Path): (Path, Result<Option<nat>, SysError>)
    requires i <= |l|
  {
    Lookup(l[i..], base + SizeUpTo(l, i), path)
  }

  /** One step of it. */
  lemma LookupStep(l: seq<Node>, base: nat, i: nat, path: Path)
    requires i < |l| && path != []
    ensures l[i].name != path[0] ==> At(l, base, i, path) == At(l, base, i + 1, path)
    ensures l[i].name == path[0] && |path| == 1 ==> At(l, base, i, path) == ([], Ok(Some(base + SizeUpTo(l, i))))
    ensures l[i].name == path[0] && |path| > 1 && l[i].File? ==> At(l, base, i, path) == At(l, base, i + 1, path[1..])
    ensures l[i].name == path[0] && |path| > 1 && l[i].Dir? ==>
      var inner := At(l[i].entries, base + SizeUpTo(l, i) + HEADER_LEN, 0, path[1..]);
      && (inner.1 == Ok(None) ==> At(l, base, i, path) == At(l, base, i + 1, inner.0))
      && (inner.1 != Ok(None) ==> At(l, base, i, path) == inner)
  {
    NextSibling(l, i);
    hide Size, ViewOf, SizeUpTo;
    ViewName(l[i]);
    if l[i].name == path[0] && l[i].Dir? {
      WholeList(l[i].entries);
      NoErrors(l[i].entries, base + SizeUpTo(l, i) + HEADER_LEN, path[1..]);
    }
  }

  /** What the chain says of a lookup from entry number `i` of a listing on. */
  function Followed(l: seq<Node>, base: nat, i: nat, path: Path): (Path, Result<Option<nat>, SysError>)
    requires i <= |l|
  {
    FromIsValid(l, i);
    var (r, q) := Chain(l, From(i, |l|), path);
    (q, Ok(if r.Some? then Some(PosOf(l, base, r.value)) else None))
  }

  /** A lookup from entry number `i` of a listing on follows the chain, and leaves what the chain leaves. */
  lemma {:induction false} LookupFollows(l: seq<Node>, base: nat, i: nat, path: Path)
    requires i <= |l| && path != []
    ensures At(l, base, i, path) == Followed(l, base, i, path)
    decreases l, |l| - i
  {
    hide *;
    if i == |l| {
      FollowedEnd(l, base, path);
    } else {
      LookupStep(l, base, i, path);
      FollowedStep(l, base, i, path);
      if l[i].name != path[0] {
        LookupFollows(l, base, i + 1, path);
      } else if |path| > 1 && l[i].File? {
        LookupFollows(l, base, i + 1, path[1..]);
      } else if |path| > 1 {
        var inner := At(l[i].entries, base + SizeUpTo(l, i) + HEADER_LEN, 0, path[1..]);
        LookupFollows(l[i].entries, base + SizeUpTo(l, i) + HEADER_LEN, 0, path[1..]);
        if inner.1 == Ok(None) {
          LookupFollows(l, base, i + 1, inner.0);
        }
      }
    }
  }

  lemma FollowedEnd(l: seq<Node>, base: nat, path: Path)
    ensures At(l, base, |l|, path) == (path, Ok(None)) == Followed(l, base, |l|, path)
  {}

  /** The same step of the chain. */
  lemma FollowedStep(l: seq<Node>, base: nat, i: nat, path: Path)
    requires i < |l| && path != []
    ensures l[i].name != path[0] ==> Followed(l, base, i, path) == Followed(l, base, i + 1, path)
    ensures l[i].name == path[0] && |path| == 1 ==> Followed(l, base, i, path) == ([], Ok(Some(base + SizeUpTo(l, i))))
    ensures l[i].name == path[0] && |path| > 1 && l[i].File? ==>
      Followed(l, base, i, path) == Followed(l, base, i + 1, path[1..])
    ensures l[i].name == path[0] && |path| > 1 && l[i].Dir? ==>
      var inner := Followed(l[i].entries, base + SizeUpTo(l, i) + HEADER_LEN, 0, path[1..]);
      && (inner.1 == Ok(None) ==> Followed(l, base, i, path) == Followed(l, base, i + 1, inner.0))
      && (inner.1 != Ok(None) ==> Followed(l, base, i, path) == inner)
    ensures l[i].name == path[0] && |path| > 1 && l[i].Dir? ==>
      var inner := Followed(l[i].entries, base + SizeUpTo(l, i) + HEADER_LEN, 0, path[1..]);
      inner.1 == Ok(None) ==> inner.0 != []
  {
    hide From, Rest, Below, SizeUpTo, FirstNamed;
    if l[i].name != path[0] {
      OtherName(l, i, path);
    } else if |path| == 1 {
      FirstOne(l, i, path[0]);
    } else {
      hide Chain;
      SameName(l, i, path);
      if l[i].Dir? {
        FromIsValid(l[i].entries, 0);
        ChainGoesOn(l, i, From(0, |l[i].entries|), path[1..]);
        var (r, q) := Chain(l[i].entries, From(0, |l[i].entries|), path[1..]);
        if r.Some? { assert ([i] + r.value)[1..] == r.value; }
      }
    }
  }

  lemma FirstOne(l: seq<Node>, i: nat, name: seq<nat>)
    requires i < |l| && l[i].name == name
    ensures AllValid(l, From(i, |l|)) && From(i, |l|) != [] && From(i, |l|)[0] == [i]
    ensures FirstNamed(l, From(i, |l|), name) == 0
  {
    FromIsValid(l, i);
  }

  lemma WholeList(l: seq<Node>)
    ensures l[0..] == l && SizeUpTo(l, 0) == 0
  {}

  /** An entry with another name is passed over. */
  lemma OtherName(l: seq<Node>, i: nat, path: Path)
    requires i < |l| && path != [] && l[i].name != path[0]
    ensures AllValid(l, From(i, |l|)) && AllValid(l, From(i + 1, |l|))
    ensures Chain(l, From(i, |l|), path) == Chain(l, From(i + 1, |l|), path)
  {
    hide Rest, SizeUpTo;
    FromIsValid(l, i);
    FromIsValid(l, i + 1);
    assert From(i, |l|)[1..] == From(i + 1, |l|);
    var k := FirstNamed(l, From(i + 1, |l|), path[0]);
    assert k < |From(i + 1, |l|)| ==> From(i, |l|)[k + 1] == From(i + 1, |l|)[k];
  }

  /** An entry with the right name is gone into. */
  lemma SameName(l: seq<Node>, i: nat, path: Path)
    requires i < |l| && |path| > 1 && l[i].name == path[0]
    ensures AllValid(l, From(i, |l|)) && Valid(l, [i]) && AllValid(l, Rest(l, [i]))
    ensures Chain(l, From(i, |l|), path) == Chain(l, Rest(l, [i]), path[1..])
    ensures l[i].File? ==> Rest(l, [i]) == From(i + 1, |l|)
    ensures l[i].Dir? ==> Rest(l, [i]) == Below(i, From(0, |l[i].entries|)) + From(i + 1, |l|)
  {
    FromIsValid(l, i);
    RestIsValid(l, [i]);
    assert From(i, |l|)[0] == [i];
  }

  lemma NextSibling(l: seq<Node>, i: nat)
    requires i < |l|
    ensures l[i..][0] == l[i] && l[i..][1..] == l[i + 1..] && SizeUpTo(l, i + 1) == SizeUpTo(l, i) + Size(l[i])
  {}

  /** The places that the walk starts from: the root alone. */
  function Answer(root: Node, path: Path): Option<seq<nat>> {
    FromIsValid([root], 0);
    Chain([root], From(0, 1), path).0
  }

  /**
   * `Fs::entry` for every path: it answers with the place where the chain of first entries ends,
   * and reports a missing entry if and only if the chain breaks.
   */
  lemma LookupAnswers(root: Node, path: Path)
    ensures Answer(root, path).Some? ==> Valid([root], Answer(root, path).value)
    ensures Found(root, path)
         == if Answer(root, path).Some? then Ok(PosOf([root], 16, Answer(root, path).value)) else Err(NoEnt)
  {
    if path != [] {
      LookupFollows([root], 16, 0, path);
      WholeList([root]);
    }
  }

  /**
   * A path that is not in the tree is reported missing if and only if its chain breaks: not when
   * each of its names is found further on after the entry for the name before it.
   */
  lemma MissingPathIff(root: Node, path: Path)
    requires Absent([root], path)
    ensures Found(root, path) == Err(NoEnt) <==> Answer(root, path).None?
  {
    LookupAnswers(root, path);
  }

  /** There is nothing below a file "r/x", but the lookup of "r/x/b" answers with its sibling "r/b". */
  lemma LookupThroughFile()
    ensures var x, b := File([0x78], []), File([0x62], []);
      var root := Dir([0x72], [x, b]);
      && Good(root) && Full([root]) && UniqueNames([root])
      && Absent([root], [[0x72], [0x78], [0x62]])
      && Found(root, [[0x72], [0x78], [0x62]]) == Ok(PosOf([root], 16, [0, 1]))
  {
    var x, b := File([0x78], []), File([0x62], []);
    var root, path := Dir([0x72], [x, b]), [[0x72], [0x78], [0x62]];
    TwoFiles(x, b, root);
    hide Good, UniqueNames, Lookup, At;
    LookupStep([root], 16, 0, path);
    LookupStep([x, b], 16 + HEADER_LEN, 0, path[1..]);
    LookupStep([x, b], 16 + HEADER_LEN, 1, path[1..][1..]);
    FoundAt(root, path);
    assert [0, 1][1..] == [1];
    AbsentIf([x, b], path[1..]);
    AbsentIf([root], path);
  }

  lemma TwoFiles(x: Node, b: Node, root: Node)
    requires x == File([0x78], []) && b == File([0x62], []) && root == Dir([0x72], [x, b])
    ensures Good(root) && Full([root]) && UniqueNames([root])
  {
    GoodTwo(x, b);
    assert UniqueNames([x, b]);
  }

  /** There is no directory "r/a/q", but the lookup of "r/a/q/b" answers with "r/q/b". */
  lemma LookupSkipsDirectory()
    ensures var x, b := File([0x78], []), File([0x62], []);
      var root := Dir([0x72], [Dir([0x61], [x]), Dir([0x71], [b])]);
      && Good(root) && Full([root]) && UniqueNames([root])
      && Absent([root], [[0x72], [0x61], [0x71], [0x62]])
      && Found(root, [[0x72], [0x61], [0x71], [0x62]]) == Ok(PosOf([root], 16, [0, 1, 0]))
  {
    var x, b := File([0x78], []), File([0x62], []);
    var a, q := Dir([0x61], [x]), Dir([0x71], [b]);
    var root, path := Dir([0x72], [a, q]), [[0x72], [0x61], [0x71], [0x62]];
    TwoDirs(x, b, a, q, root);
    hide Good, UniqueNames, Lookup;
    AbsentIf([x], path[1..][1..]);
    AbsentIf([a, q], path[1..]);
    AbsentIf([root], path);
    DirectorySkipped(x, b, a, q, root);
  }

  lemma TwoDirs(x: Node, b: Node, a: Node, q: Node, root: Node)
    requires x == File([0x78], []) && b == File([0x62], [])
    requires a == Dir([0x61], [x]) && q == Dir([0x71], [b]) && root == Dir([0x72], [a, q])
    ensures Good(root) && Full([root]) && UniqueNames([root])
  {
    GoodOne(x);
    GoodOne(b);
    GoodTwo(a, q);
    GoodOne(root);
    assert UniqueNames([x]) && UniqueNames([b]);
    assert UniqueNames([a, q]);
  }

  lemma DirectorySkipped(x: Node, b: Node, a: Node, q: Node, root: Node)
    requires x == File([0x78], []) && b == File([0x62], [])
    requires a == Dir([0x61], [x]) && q == Dir([0x71], [b]) && root == Dir([0x72], [a, q])
    ensures Found(root, [[0x72], [0x61], [0x71], [0x62]]) == Ok(PosOf([root], 16, [0, 1, 0]))
  {
    hide Size, SizeUpTo, Lookup, At, Found;
    var path: Path, here := [[0x72], [0x61], [0x71], [0x62]], 16 + SizeUpTo([root], 0);
    var inner := here + HEADER_LEN;
    LookupStep([root], 16, 0, path);
    LookupStep([a, q], inner, 0, path[1..]);
    LookupStep([x], inner + SizeUpTo([a, q], 0) + HEADER_LEN, 0, path[1..][1..]);
    LookupStep([a, q], inner, 1, path[1..][1..]);
    LookupStep([b], inner + SizeUpTo([a, q], 1) + HEADER_LEN, 0, path[1..][1..][1..]);
    FoundAt(root, path);
    assert [0, 1, 0][1..] == [1, 0] && [1, 0][1..] == [0];
    FollowedEnd([x], inner + SizeUpTo([a, q], 0) + HEADER_LEN, path[1..][1..]);
  }

  lemma FoundAt(root: Node, path: Path)
    requires path != []
    ensures At([root], 16, 0, path).1.Ok?
    ensures var r := At([root], 16, 0, path).1.value; Found(root, path) == if r.Some? then Ok(r.value) else Err(NoEnt)
  {
    WholeList([root]);
    NoErrors([root], 16, path);
  }

  /** A path of the tree is its own chain. */
  lemma PathIsChain(root: Node, idx: seq<nat>)
    requires UniqueNames([root]) && Valid([root], idx)
    ensures Answer(root, PathOf([root], idx)).Some?
    ensures PosOf([root], 16, Answer(root, PathOf([root], idx)).value) == PosOf([root], 16, idx)
  {
    EntryFound(root, idx);
    LookupAnswers(root, PathOf([root], idx));
  }

  // ---------- What a lookup can find ----------

  /** A path that is not used up keeps its last name. */
  lemma {:induction false} LastNameLeft(l: seq<Node>, base: nat, path: Path)
    requires path != [] && Lookup(l, base, path).1 == Ok(None)
    ensures var q := Lookup(l, base, path).0; q != [] && q[|q| - 1] == path[|path| - 1]
    decreases l
  {
    hide Size, ViewOf;
    if l != [] {
      var path' := PathVisitor(path, ViewOf(l[0])).0;
      if path' != path && l[0].Dir? {
        LastNameLeft(l[0].entries, base + HEADER_LEN, path');
        LastNameLeft(l[1..], base + Size(l[0]), Lookup(l[0].entries, base + HEADER_LEN, path').0);
      } else {
        LastNameLeft(l[1..], base + Size(l[0]), path');
      }
    }
  }

  /** Even a wrong answer is an entry of the tree whose name is the last one of the path. */
  lemma {:induction false} FoundHasName(l: seq<Node>, base: nat, path: Path) returns (idx: seq<nat>)
    requires path != [] && Lookup(l, base, path).1.Ok? && Lookup(l, base, path).1.value.Some?
    ensures Valid(l, idx) && NodeOf(l, idx).name == path[|path| - 1]
    ensures Lookup(l, base, path).1.value.value == PosOf(l, base, idx)
    decreases l
  {
    hide Size, ViewOf;
    ViewName(l[0]);
    var path' := PathVisitor(path, ViewOf(l[0])).0;
    if path' == [] {
      idx := [0];
    } else if path' != path && l[0].Dir? {
      var inner := Lookup(l[0].entries, base + HEADER_LEN, path');
      if inner.1 == Ok(None) {
        LastNameLeft(l[0].entries, base + HEADER_LEN, path');
        var idx' := FoundHasName(l[1..], base + Size(l[0]), inner.0);
        idx := ShiftIdx(l, base, idx');
      } else {
        var idx' := FoundHasName(l[0].entries, base + HEADER_LEN, path');
        idx := [0] + idx';
        assert idx[1..] == idx';
      }
    } else {
      var idx' := FoundHasName(l[1..], base + Size(l[0]), path');
      idx := ShiftIdx(l, base, idx');
    }
  }

  lemma ShiftIdx(l: seq<Node>, base: nat, idx': seq<nat>) returns (idx: seq<nat>)
    requires l != [] && Valid(l[1..], idx')
    ensures Valid(l, idx) && NodeOf(l, idx) == NodeOf(l[1..], idx')
    ensures PosOf(l, base, idx) == PosOf(l[1..], base + Size(l[0]), idx')
  {
    hide Size;
    idx := [idx'[0] + 1] + idx'[1..];
    assert idx[1..] == idx'[1..] && l[idx[0]] == l[1..][idx'[0]];
    SizeUpToRest(l, idx'[0]);
  }

  // ---------- Visits of everything ----------

  /** Every entry once, a directory before what is in it. */
  function Preorder(l: seq<Node>): seq<Node>
    decreases l
  {
    if l == [] then []
    else [l[0]] + (if l[0].Dir? then Preorder(l[0].entries) else []) + Preorder(l[1..])
  }

  function Fold<S>(f: (S, Node) -> S, s: S, xs: seq<Node>): S
    decreases xs
  {
    if xs == [] then s else Fold(f, f(s, xs[0]), xs[1..])
  }

  lemma {:induction false} FoldConcat<S>(f: (S, Node) -> S, s: S, xs: seq<Node>, ys: seq<Node>)
    ensures Fold(f, s, xs + ys) == Fold(f, Fold(f, s, xs), ys)
    decreases xs
  {
    if xs == [] {
      assert xs + ys == ys;
    } else {
      FoldConcat(f, f(s, xs[0]), xs[1..], ys);
      assert (xs + ys)[1..] == xs[1..] + ys;
    }
  }

  /** A visitor that always goes on: `f` is what it does to its state. */
  ghost predicate GoesOn<S(!new)>(v: Visitor<S>, f: (S, Node) -> S) {
    forall s, n :: v(s, ViewOf(n)) == (f(s, n), Ok(Recurse))
  }

  /** A visit that is never cut short meets every entry of the tree exactly once. */
  lemma {:induction false} WalkVisitsAll<S(!new)>(l: seq<Node>, base: nat, v: Visitor<S>, f: (S, Node) -> S, s: S)
    requires GoesOn(v, f)
    ensures Walk(l, base, v, s) == (Fold(f, s, Preorder(l)), Ok(None))
    decreases l
  {
    hide Size, ViewOf;
    if l != [] {
      var inner := if l[0].Dir? then Preorder(l[0].entries) else [];
      assert v(s, ViewOf(l[0])) == (f(s, l[0]), Ok(Recurse));
      var s1 := f(s, l[0]);
      if l[0].Dir? { WalkVisitsAll(l[0].entries, base + HEADER_LEN, v, f, s1); }
      WalkVisitsAll(l[1..], base + Size(l[0]), v, f, Fold(f, s1, inner));
      FoldConcat(f, s, [l[0]] + inner, Preorder(l[1..]));
      FoldConcat(f, s, [l[0]], inner);
    }
  }

  // ---------- fsck ----------

  function CountOne(st: Stats, n: Node): Stats {
    if n.Dir? then st.(dirCount := st.dirCount + 1)
    else st.(fileCount := st.fileCount + 1, fileBytes := st.fileBytes + |n.contents|)
  }

  function Dirs(xs: seq<Node>): nat { if xs == [] then 0 else (if xs[0].Dir? then 1 else 0) + Dirs(xs[1..]) }

  function Files(xs: seq<Node>): nat { if xs == [] then 0 else (if xs[0].File? then 1 else 0) + Files(xs[1..]) }

  function Bytes(xs: seq<Node>): nat {
    if xs == [] then 0 else (if xs[0].File? then |xs[0].contents| else 0) + Bytes(xs[1..])
  }

  lemma {:induction false} FoldCounts(st: Stats, xs: seq<Node>)
    ensures Fold(CountOne, st, xs)
         == Stats(st.dirCount + Dirs(xs), st.fileCount + Files(xs), st.badFiles, st.fileBytes + Bytes(xs))
    decreases xs
  {
    if xs != [] { FoldCounts(CountOne(st, xs[0]), xs[1..]); }
  }

  lemma CheckGoesOn(utf8: seq<nat> -> bool)
    ensures GoesOn(CheckVisitor(utf8), CountOne)
  {
    forall st: Stats, n: Node ensures CheckVisitor(utf8)(st, ViewOf(n)) == (CountOne(st, n), Ok(Recurse)) {}
  }

  /** `fsck` counts every directory and file once, adds up the file sizes and finds no bad file. */
  lemma CheckPasses(root: Node, utf8: seq<nat> -> bool)
    ensures var all := Preorder([root]);
      Checked(root, utf8) == Ok(Stats(Dirs(all), Files(all), 0, Bytes(all)))
  {
    CheckGoesOn(utf8);
    WalkVisitsAll([root], 16, CheckVisitor(utf8), CountOne, Stats(0, 0, 0, 0));
    FoldCounts(Stats(0, 0, 0, 0), Preorder([root]));
  }

  // ---------- The image ----------

  /** The image of a tree holds the tree, and its header says so. */
  lemma ImageHolds(root: Node)
    requires Good(root) && |Image(root)| < U32
    ensures var mem := Image(root);
      && |mem| == 16 + Size(root) && ListAt(mem, [root], 16) && mem[0..4] == MAGIC
      && U32At(mem, 4) + 16 == |mem| && U32At(mem, 8) == Adler.Checksum(mem[12..])
  {
    hide Image, Encode, Le32, Adler.Checksum, Size, Good, NamesFit, U32At, EncodeList, SizeOfList, AllGood;
    ImageIs(root);
    GoodFits(root);
    EncodeSize(root, 16, true);
    SingleList(root, 16);
    var mem, code := Image(root), Encode(root, 16, true);
    var body := Zeros(4) + code;
    HeaderParts(MAGIC, Le32(|code|), Le32(Adler.Checksum(body)), Zeros(4), code);
    assert mem[12..] == body && mem[16..16 + |code|] == code;
    HeaderFields(mem, |code|, Adler.Checksum(body));
  }

  lemma HeaderFields(mem: seq<nat>, length: nat, checksum: nat)
    requires |mem| >= 16 && length < U32 && checksum < U32
    requires mem[4..8] == Le32(length) && mem[8..12] == Le32(checksum)
    ensures U32At(mem, 4) == length && U32At(mem, 8) == checksum
  {
    FieldAt(mem, 4, length);
    FieldAt(mem, 8, checksum);
  }

  lemma HeaderParts(a: seq<nat>, b: seq<nat>, c: seq<nat>, d: seq<nat>, e: seq<nat>)
    requires |a| == |b| == |c| == |d| == 4
    ensures var w := a + b + c + (d + e);
      w[0..4] == a && w[4..8] == b && w[8..12] == c && w[12..] == d + e && w[16..] == e && w[16..16 + |e|] == e
  {
    var w := a + b + c + (d + e);
    assert w[4..] == b + c + (d + e) && w[4..8] == w[4..][..4];
    assert w[8..] == c + (d + e) && w[8..12] == w[8..][..4];
    assert w[12..] == d + e && w[16..] == w[12..][4..] && w[16..16 + |e|] == w[16..];
  }

  lemma SingleList(n: Node, base: nat)
    requires Good(n)
    ensures EncodeList([n], base) == Encode(n, base, true) && SizeOfList([n]) == Size(n) && AllGood([n])
  {
    hide Encode, Size, Good;
    assert EncodeList([n], base) == Encode(n, base, true) + EncodeList([n][1..], base + Size(n));
  }

  /** Opening a filesystem that lies in ROM; one that ends exactly with the ROM is refused. */
  lemma OpensImage(rom: seq<nat>, fsOff: nat, root: Node)
    requires |rom| == ROM_LEN && Good(root) && |Image(root)| < U32 && fsOff + |Image(root)| <= ROM_LEN
    requires rom[fsOff..fsOff + |Image(root)|] == Image(root)
    ensures Opened(rom, fsOff, |Image(root)|)
         == if fsOff + |Image(root)| < ROM_LEN then Ok(Image(root)) else Err(Invalid)
  {
    ImageHolds(root);
    hide Image, U32At, Size, ListAt, Good;
  }

  /** The operation in the cartridge header leads to the image. */
  lemma CartHoldsImage(data: seq<nat>, i: nat, root: Node)
    requires |data| >= 0x100 && i < 16 && |WithFs(data, i, root)| < U32
    ensures var cart, fsOff := WithFs(data, i, root), AlignUp(|data|, 1024);
      && cart[16 * i..16 * i + 4] == FSM
      && U32At(cart, 16 * i + 4) == fsOff && U32At(cart, 16 * i + 8) == |Image(root)|
      && |cart| == fsOff + |Image(root)| && cart[fsOff..] == Image(root)
  {
    var cart, fsOff := WithFs(data, i, root), AlignUp(|data|, 1024);
    hide Image, Le32, U32At, AlignUp;
    var op := FSM + Le32(fsOff) + Le32(|Image(root)|) + Le32(0);
    var before := data + Filler(fsOff - |data|);
    assert cart == before[..16 * i] + op + before[16 * i + 16..] + Image(root);
    OpParts(FSM, Le32(fsOff), Le32(|Image(root)|), Le32(0));
    assert cart[16 * i..16 * i + 16] == op;
    SliceOf(cart, 16 * i, op, 0, 4);
    SliceOf(cart, 16 * i, op, 4, 8);
    SliceOf(cart, 16 * i, op, 8, 12);
    FieldAt(cart, 16 * i + 4, fsOff);
    FieldAt(cart, 16 * i + 8, |Image(root)|);
  }

  /** The rest of the cartridge stays as it is, and the gap up to the next multiple of 1024 is filled with ones. */
  lemma CartKeepsRest(data: seq<nat>, i: nat, root: Node, k: nat)
    requires |data| >= 0x100 && i < 16 && |WithFs(data, i, root)| < U32
    requires k < |data| ==> k < 16 * i || 16 * i + 16 <= k
    ensures var cart, fsOff := WithFs(data, i, root), |WithFs(data, i, root)| - |Image(root)|;
      && fsOff % 1024 == 0 && |data| <= fsOff < |data| + 1024
      && (k < fsOff ==> cart[k] == if k < |data| then data[k] else 0xff)
  {
    CartHoldsImage(data, i, root);
    var cart, fsOff := WithFs(data, i, root), AlignUp(|data|, 1024);
    hide Image, Le32, U32At, AlignUp;
    var op := FSM + Le32(fsOff) + Le32(|Image(root)|) + Le32(0);
    var before := data + Filler(fsOff - |data|);
    assert cart == before[..16 * i] + op + before[16 * i + 16..] + Image(root);
    if k < fsOff { assert before[k] == if k < |data| then data[k] else 0xff; }
  }

  lemma OpParts(a: seq<nat>, b: seq<nat>, c: seq<nat>, d: seq<nat>)
    requires |a| == |b| == |c| == |d| == 4
    ensures var w := a + b + c + d; |w| == 16 && w[0..4] == a && w[4..8] == b && w[8..12] == c
  {}

  lemma RomHoldsImage(data: seq<nat>, i: nat, root: Node, rom: seq<nat>)
    requires |data| >= 0x100 && i < 16 && Good(root)
    requires |rom| == ROM_LEN > |WithFs(data, i, root)| && WithFs(data, i, root) <= rom
    ensures |Image(root)| < U32 && Opened(rom, U32At(rom, 16 * i + 4), U32At(rom, 16 * i + 8)) == Ok(Image(root))
  {
    CartHoldsImage(data, i, root);
    var cart, fsOff := WithFs(data, i, root), AlignUp(|data|, 1024);
    SameWord(cart, rom, 16 * i + 4);
    SameWord(cart, rom, 16 * i + 8);
    hide WithFs, Image, AlignUp, Good, Opened, U32At;
    assert rom[fsOff..fsOff + |Image(root)|] == cart[fsOff..];
    OpensImage(rom, fsOff, root);
  }

  lemma SameWord(a: seq<nat>, b: seq<nat>, p: nat)
    requires a <= b && p + 4 <= |a|
    ensures U32At(a, p) == U32At(b, p)
  {}

  /**
   * The round trip: load a tree into a cartridge, put the cartridge in ROM, follow its header, and
   * every entry of the tree is found in the bytes of the image under its path, with its contents, and
   * the check passes, counting every entry once.
   */
  lemma FilesystemRoundTrip(data: seq<nat>, i: nat, root: Node, rom: seq<nat>, idx: seq<nat>,
                            utf8: seq<nat> -> bool, fuel: nat)
    requires |data| >= 0x100 && i < 16 && Good(root) && Full([root]) && UniqueNames([root]) && Valid([root], idx)
    requires |rom| == ROM_LEN > |WithFs(data, i, root)| && WithFs(data, i, root) <= rom && fuel >= Need([root])
    ensures var mem, pos, all := Image(root), PosOf([root], 16, idx), Preorder([root]);
      && Opened(rom, U32At(rom, 16 * i + 4), U32At(rom, 16 * i + 8)) == Ok(mem) && |mem| >= 16
      && FoundIn(mem, PathOf([root], idx), fuel) == Some(Ok(pos))
      && pos + HEADER_LEN <= |mem| && View(mem, pos) == ViewOf(NodeOf([root], idx))
      && CheckedIn(mem, utf8, fuel) == Some(Ok(Stats(Dirs(all), Files(all), 0, Bytes(all))))
  {
    hide WithFs, Image, Good, UniqueNames, Opened, View, ViewOf, Lookup, Valid, NodeOf, PosOf, ListAt, U32At, PathOf;
    hide Adler.Checksum, Size, Checked, FoundIn, CheckedIn, Found, Need;
    RomHoldsImage(data, i, root, rom);
    ImageHolds(root);
    EntryFound(root, idx);
    EntryVisible(Image(root), [root], 16, idx);
    WrittenFound(Image(root), PathOf([root], idx), fuel);
    CheckPasses(root, utf8);
    WrittenChecked(Image(root), utf8, fuel);
  }

  lemma EntryFound(root: Node, idx: seq<nat>)
    requires UniqueNames([root]) && Valid([root], idx)
    ensures Found(root, PathOf([root], idx)) == Ok(PosOf([root], 16, idx))
  {
    hide UniqueNames, PosOf;
    LookupFinds([root], 16, idx);
  }

  /** Counting entries, `fsck` meets at least one at every position that it goes to. */
  lemma {:induction false} CountsGrow(mem: seq<nat>, pos: nat, utf8: seq<nat> -> bool, st: Stats, fuel: nat)
    ensures var r := WalkBytes(mem, pos, CheckVisitor(utf8), st, fuel);
      r.Some? && r.value.1.Ok? ==>
        r.value.1 == Ok(None) && Counted(r.value.0) >= Counted(st) + if pos == 0 then 0 else 1
    decreases fuel
  {
    hide View, Next, TypeAt, CheckVisitor, Counted;
    if pos != 0 && fuel > 0 && EntryAt(mem, pos).Ok? {
      OneCounted(utf8, st, View(mem, pos));
      var st1 := CheckVisitor(utf8)(st, View(mem, pos)).0;
      CountsGrow(mem, pos + HEADER_LEN, utf8, st1, fuel - 1);
      CountsGrow(mem, Next(mem, pos), utf8, st1, fuel - 1);
      var inner := WalkBytes(mem, pos + HEADER_LEN, CheckVisitor(utf8), st1, fuel - 1);
      if inner.Some? { CountsGrow(mem, Next(mem, pos), utf8, inner.value.0, fuel - 1); }
    }
  }

  lemma OneCounted(utf8: seq<nat> -> bool, st: Stats, e: Entry)
    ensures var (st1, r) := CheckVisitor(utf8)(st, e); r.Err? || (r == Ok(Recurse) && Counted(st1) == Counted(st) + 1)
  {}

  function Counted(st: Stats): nat { st.dirCount + st.fileCount }

  /** An empty directory seems to hold what is behind it, so that the check counts too much. */
  lemma {:induction false} EmptyDirsCount(mem: seq<nat>, l: seq<Node>, pos: nat,
                                          utf8: seq<nat> -> bool, st: Stats, fuel: nat)
    requires ListAt(mem, l, pos)
    ensures var r := WalkBytes(mem, pos, CheckVisitor(utf8), st, fuel);
      r.Some? && r.value.1.Ok? ==>
        Counted(r.value.0) >= Counted(st) + |Preorder(l)| + if Full(l) then 0 else 1
    decreases l
  {
    hide ListAt, NodeAtPos, View, Next, EntryAt, Size, TypeAt;
    ListSplits(mem, l, pos);
    EntryView(mem, l[0], pos, |l| == 1);
    if fuel > 0 {
      var v, st1 := CheckVisitor(utf8), CountOne(st, l[0]);
      assert v(st, ViewOf(l[0])) == (st1, Ok(Recurse));
      var st2 := st1;
      if l[0].Dir? {
        var inner := WalkBytes(mem, pos + HEADER_LEN, v, st1, fuel - 1);
        CountsGrow(mem, pos + HEADER_LEN, utf8, st1, fuel - 1);
        if l[0].entries != [] {
          DirSplits(mem, l[0], pos, |l| == 1);
          EmptyDirsCount(mem, l[0].entries, pos + HEADER_LEN, utf8, st1, fuel - 1);
        }
        st2 := if inner.Some? then inner.value.0 else st1;
      }
      if |l| > 1 {
        EmptyDirsCount(mem, l[1..], pos + Size(l[0]), utf8, st2, fuel - 1);
      } else {
        assert l[1..] == [];
      }
    }
  }

  lemma {:induction false} CountsAll(xs: seq<Node>)
    ensures Dirs(xs) + Files(xs) == |xs|
    decreases xs
  {
    if xs != [] { CountsAll(xs[1..]); }
  }

  /**
   * The check gives the right counts for the image of a tree if and only if the tree has no empty
   * directory.
   */
  lemma CheckIff(root: Node, utf8: seq<nat> -> bool, fuel: nat)
    requires Good(root) && |Image(root)| < U32 && fuel >= Need([root])
    ensures |Image(root)| >= 16
    ensures var all := Preorder([root]);
      CheckedIn(Image(root), utf8, fuel) == Some(Ok(Stats(Dirs(all), Files(all), 0, Bytes(all)))) <==> Full([root])
  {
    ImageHolds(root);
    hide Image, Good, ListAt, U32At, Adler.Checksum, Need, Full, WalkBytes, Preorder;
    if Full([root]) {
      CheckPasses(root, utf8);
      WrittenChecked(Image(root), utf8, fuel);
    } else {
      CountsAll(Preorder([root]));
      EmptyDirsCount(Image(root), [root], 16, utf8, Stats(0, 0, 0, 0), fuel);
    }
  }
}
