/**
  Reading the memory of a crashed process out of its core file: a sorted table of mappings with binary
  search, a list of class-sharing mappings that is consulted last, and a read loop that takes
  whole mappings at once and fills the rest of a mapping's last page with zeros. Compared with
  looking up every address by itself.
 */
module CoreReader {
  import opened Wrappers
  import opened Arithmetic

  type byte = x: int | 0 <= x < 256

  datatype Map = Map(fd: int, offset: int, vaddr: nat, memsz: nat)

  function End(m: Map): nat {
    m.vaddr + m.memsz
  }

  predicate In(m: Map, x: int) {
    m.vaddr <= x < End(m)
  }

  /** The end of the last page of a mapping that starts at a page boundary. */
  function PageEnd(m: Map, page: nat): nat
    requires page > 0
  {
    if m.memsz % page == 0 then End(m) else End(m) + (page - m.memsz % page)
  }

  // --------------------------------------------------------------------------
  // Lookup, simple form

  /** The first mapping of a list that contains the address. */
  function Scan(maps: seq<Map>, x: int): Option<Map> {
    if maps == [] then None
    else if In(maps[0], x) then Some(maps[0])
    else Scan(maps[1..], x)
  }

  /** Class-sharing mappings count only where there is no other. */
  function Find(maps: seq<Map>, shares: seq<Map>, x: int): Option<Map> {
    match Scan(maps, x)
    case Some(m) => Some(m)
    case None => Scan(shares, x)
  }

  lemma {:induction false} ScanFinds(maps: seq<Map>, x: int)
    ensures Scan(maps, x).Some? ==> Scan(maps, x).value in maps && In(Scan(maps, x).value, x)
    ensures Scan(maps, x).None? <==> forall m :: m in maps ==> !In(m, x)
  {
    if maps != [] && !In(maps[0], x) {
      ScanFinds(maps[1..], x);
      assert forall m :: m in maps <==> m == maps[0] || m in maps[1..];
    }
  }

  /** Mappings do not overlap, so at most one contains an address. */
  ghost predicate Disjoint(maps: seq<Map>)
  {
    forall m, n, x: int :: m in maps && n in maps && In(m, x) && In(n, x) ==> m == n
  }

  /** The mapping that contains an address is the one the scan finds. */
  lemma ScanUnique(maps: seq<Map>, x: int, m: Map)
    requires Disjoint(maps) && m in maps && In(m, x)
    ensures Scan(maps, x) == Some(m)
  {
    ScanFinds(maps, x);
  }

  // --------------------------------------------------------------------------
  // Sorting

  ghost predicate Sorted(maps: seq<Map>)
  {
    forall i, j :: 0 <= i < j < |maps| ==> maps[i].vaddr <= maps[j].vaddr
  }

  function Insert(maps: seq<Map>, m: Map): seq<Map> {
    if maps == [] then [m]
    else if m.vaddr <= maps[0].vaddr then [m] + maps
    else [maps[0]] + Insert(maps[1..], m)
  }

  lemma {:induction false} InsertKeeps(maps: seq<Map>, m: Map)
    ensures multiset(Insert(maps, m)) == multiset(maps) + multiset{m}
  {
    if maps != [] && m.vaddr > maps[0].vaddr {
      InsertKeeps(maps[1..], m);
      assert maps == [maps[0]] + maps[1..];
    }
  }

  lemma {:induction false} InsertSorts(maps: seq<Map>, m: Map)
    requires Sorted(maps)
    ensures Sorted(Insert(maps, m))
  {
    if maps != [] && m.vaddr > maps[0].vaddr {
      var rest := maps[1..];
      InsertSorts(rest, m);
      InsertElements(rest, m);
      var r := Insert(rest, m);
      forall k | 0 <= k < |r| ensures maps[0].vaddr <= r[k].vaddr {
        assert r[k] in r;
      }
      SortedCons(maps[0], r);
    }
  }

  lemma SortedCons(first: Map, r: seq<Map>)
    requires Sorted(r) && forall k :: 0 <= k < |r| ==> first.vaddr <= r[k].vaddr
    ensures Sorted([first] + r)
  {
  }

  lemma InsertElements(maps: seq<Map>, m: Map)
    ensures forall n :: n in Insert(maps, m) ==> n == m || n in maps
  {
    InsertKeeps(maps, m);
    forall n | n in Insert(maps, m) ensures n == m || n in maps {
      assert n in multiset(Insert(maps, m));
    }
  }

  // --------------------------------------------------------------------------
  // Lookup, fast form

  ghost predicate Positive(maps: seq<Map>)
  {
    forall m :: m in maps ==> m.memsz > 0
  }

  /** Index k is the last mapping that starts at or before the address, or the first if all start behind it. */
  ghost predicate LastBefore(a: seq<Map>, x: int, k: nat)
  {
    && k < |a|
    && (k == 0 || a[k].vaddr <= x)
    && (k + 1 < |a| ==> x < a[k + 1].vaddr)
  }

  /** If any mapping contains the address, it is that one. */
  lemma OnlyCandidate(a: seq<Map>, x: int, k: nat)
    requires Sorted(a) && Disjoint(a) && Positive(a) && LastBefore(a, x, k)
    ensures Scan(a, x) == if In(a[k], x) then Some(a[k]) else None
  {
    ScanFinds(a, x);
    if In(a[k], x) {
      ScanUnique(a, x, a[k]);
    } else {
      forall m | m in a ensures !In(m, x) {
        var i :| 0 <= i < |a| && a[i] == m;
        if In(m, x) {
          Before(a, x, k, i);
        }
      }
    }
  }

  lemma Before(a: seq<Map>, x: int, k: nat, i: nat)
    requires Sorted(a) && Disjoint(a) && Positive(a) && LastBefore(a, x, k) && i < |a| && In(a[i], x)
    ensures In(a[k], x)
  {
    assert forall j :: k < j < |a| ==> x < a[j].vaddr by {
      assert forall j :: k + 1 < j < |a| ==> a[k + 1].vaddr <= a[j].vaddr;
    }
    if i < k {
      assert In(a[k], a[k].vaddr) && In(a[i], a[k].vaddr);
    }
  }

  /** A permutation of disjoint mappings is scanned with the same result. */
  lemma ScanPermuted(a: seq<Map>, maps: seq<Map>, x: int)
    requires multiset(a) == multiset(maps) && Disjoint(maps)
    ensures Scan(a, x) == Scan(maps, x)
  {
    SameElements(a, maps);
    ScanFinds(a, x);
    ScanFinds(maps, x);
  }

  lemma SameElements(a: seq<Map>, b: seq<Map>)
    requires multiset(a) == multiset(b)
    ensures forall m :: m in a <==> m in b
  {
    assert forall m :: m in a <==> m in multiset(a);
    assert forall m :: m in b <==> m in multiset(b);
  }

  // --------------------------------------------------------------------------
  // Reading, simple form

  /** Where the value of an address comes from. */
  datatype Source = File(fd: int, position: int) | Zero

  /** The mappings as they are now. */
  datatype Space = Space(maps: seq<Map>, shares: seq<Map>, page: nat)

  predicate Tail(m: Map, page: nat, x: int)
    requires page > 0
  {
    End(m) <= x < PageEnd(m, page)
  }

  ghost predicate InSomeTail(sp: Space, x: int)
    requires sp.page > 0
  {
    exists m :: (m in sp.maps || m in sp.shares) && Tail(m, sp.page, x)
  }

  /** What mapping m holds at x, in its file or in the rest of its last page. */
  function Within(m: Map, x: int): Source {
    if x < End(m) then File(m.fd, m.offset + (x - m.vaddr)) else Zero
  }

  /** The value of one address, looked up by itself: in a file, or zero behind a mapping, or nowhere. */
  ghost function At(sp: Space, x: int): Option<Source>
    requires sp.page > 0
  {
    match Find(sp.maps, sp.shares, x)
    case Some(m) => Some(Within(m, x))
    case None => if InSomeTail(sp, x) then Some(Zero) else None
  }

  // --------------------------------------------------------------------------
  // Reading, a mapping at a time

  function Min(a: nat, b: nat): nat {
    if a < b then a else b
  }

  function Run(m: Map, x: int, n: nat): seq<Source> {
    seq(n, i requires 0 <= i < n => Within(m, x + i))
  }

  /** How many bytes one round of the loop reads from mapping m, zeros included. */
  function Round(sp: Space, m: Map, x: int, size: nat): nat
    requires sp.page > 0 && In(m, x)
  {
    Min(size, PageEnd(m, sp.page) - x)
  }

  /** The sources of the bytes the loop reads; nothing if it fails. */
  function Walk(sp: Space, x: nat, size: nat): Option<seq<Source>>
    requires sp.page > 0
    decreases size
  {
    if size == 0 then Some([])
    else
      match Find(sp.maps, sp.shares, x)
      case None => None
      case Some(m) =>
        FindContains(sp, x);
        var n := Round(sp, m, x, size);
        match Walk(sp, x + n, size - n)
        case None => None
        case Some(rest) => Some(Run(m, x, n) + rest)
  }

  lemma FindContains(sp: Space, x: int)
    ensures Find(sp.maps, sp.shares, x).Some? ==>
              var m := Find(sp.maps, sp.shares, x).value; In(m, x) && (m in sp.maps || m in sp.shares)
  {
    ScanFinds(sp.maps, x);
    ScanFinds(sp.shares, x);
  }

  // --------------------------------------------------------------------------
  // The loop against single addresses

  /** The bytes at x are those found one by one. */
  ghost predicate OneByOne(sp: Space, x: int, r: seq<Source>)
    requires sp.page > 0
  {
    forall i :: 0 <= i < |r| ==> At(sp, x + i) == Some(r[i])
  }

  /** From any address where a mapping is found up to the end of its last page, single addresses are found in it too. */
  ghost predicate Coherent(sp: Space)
    requires sp.page > 0
  {
    forall a: nat, x: int :: Unbroken(sp, a, x)
  }

  ghost predicate Unbroken(sp: Space, a: nat, x: int)
    requires sp.page > 0
  {
    var f := Find(sp.maps, sp.shares, a);
    f.Some? && a <= x < PageEnd(f.value, sp.page) ==> At(sp, x) == Some(Within(f.value, x))
  }

  lemma RunOneByOne(sp: Space, m: Map, x: nat, n: nat)
    requires sp.page > 0 && Coherent(sp) && Find(sp.maps, sp.shares, x) == Some(m) && n <= PageEnd(m, sp.page) - x
    ensures OneByOne(sp, x, Run(m, x, n))
  {
    forall i | 0 <= i < n ensures At(sp, x + i) == Some(Run(m, x, n)[i]) {
      assert Unbroken(sp, x, x + i);
    }
  }

  lemma OneByOneConcat(sp: Space, x: int, r: seq<Source>, t: seq<Source>)
    requires sp.page > 0
    ensures OneByOne(sp, x, r + t) <==> OneByOne(sp, x, r) && OneByOne(sp, x + |r|, t)
  {
    if OneByOne(sp, x, r + t) {
      forall i | 0 <= i < |r| ensures At(sp, x + i) == Some(r[i]) {
        assert (r + t)[i] == r[i];
      }
      forall i | 0 <= i < |t| ensures At(sp, x + |r| + i) == Some(t[i]) {
        assert (r + t)[|r| + i] == t[i];
        assert At(sp, x + (|r| + i)) == Some((r + t)[|r| + i]);
      }
    }
    if OneByOne(sp, x, r) && OneByOne(sp, x + |r|, t) {
      forall i | 0 <= i < |r + t| ensures At(sp, x + i) == Some((r + t)[i]) {
        if i >= |r| {
          assert At(sp, x + |r| + (i - |r|)) == Some(t[i - |r|]);
        }
      }
    }
  }

  lemma {:induction false} WalkSound(sp: Space, x: nat, size: nat)
    requires sp.page > 0 && Coherent(sp)
    ensures Walk(sp, x, size).Some? ==> |Walk(sp, x, size).value| == size && OneByOne(sp, x, Walk(sp, x, size).value)
    decreases size
  {
    if size > 0 && Walk(sp, x, size).Some? {
      FindContains(sp, x);
      var m := Find(sp.maps, sp.shares, x).value;
      var n := Round(sp, m, x, size);
      WalkSound(sp, x + n, size - n);
      RunOneByOne(sp, m, x, n);
      OneByOneConcat(sp, x, Run(m, x, n), Walk(sp, x + n, size - n).value);
    }
  }

  /** A read inside one mapping and its last page is one round. */
  lemma WalkOneRound(sp: Space, m: Map, x: nat, size: nat)
    requires sp.page > 0 && Find(sp.maps, sp.shares, x) == Some(m) && 0 < size <= PageEnd(m, sp.page) - x
    ensures Walk(sp, x, size) == Some(Run(m, x, size))
  {
    FindContains(sp, x);
    assert Walk(sp, x + size, 0) == Some([]);
    assert Run(m, x, size) + [] == Run(m, x, size);
  }

  /** A read that succeeds gives the bytes found one by one. */
  ghost predicate Right(sp: Space, x: nat, size: nat)
    requires sp.page > 0
  {
    var w := Walk(sp, x, size);
    w.Some? ==> |w.value| == size && OneByOne(sp, x, w.value)
  }

  ghost predicate AllRight(sp: Space)
    requires sp.page > 0
  {
    forall x: nat, size: nat :: Right(sp, x, size)
  }

  /** The loop agrees with reading byte by byte, for every read that succeeds, exactly for coherent mappings. */
  lemma AgreesIffCoherent(sp: Space)
    requires sp.page > 0
    ensures AllRight(sp) <==> Coherent(sp)
  {
    if Coherent(sp) {
      forall x: nat, size: nat ensures Right(sp, x, size) {
        WalkSound(sp, x, size);
      }
    }
    if AllRight(sp) {
      forall a: nat, x: int ensures Unbroken(sp, a, x) {
        UnbrokenRead(sp, a, x);
      }
    }
  }

  lemma UnbrokenRead(sp: Space, a: nat, x: int)
    requires sp.page > 0 && AllRight(sp)
    ensures Unbroken(sp, a, x)
  {
    var f := Find(sp.maps, sp.shares, a);
    if f.Some? && a <= x < PageEnd(f.value, sp.page) {
      var size := x - a + 1;
      WalkOneRound(sp, f.value, a, size);
      assert Right(sp, a, size);
      assert At(sp, a + (x - a)) == Some(Run(f.value, a, size)[x - a]);
    }
  }

  /** A stretch of a file, and a stretch of zeros. */
  function FileBytes(fd: int, position: int, n: nat): seq<Source> {
    seq(n, i requires 0 <= i < n => File(fd, position + i))
  }

  function Zeros(n: nat): seq<Source> {
    seq(n, i requires 0 <= i < n => Zero)
  }

  /** A read inside a mapping gives the stretch of its file at the mapping's offset plus the distance from its start. */
  lemma ReadsFile(sp: Space, m: Map, d: nat, n: nat)
    requires sp.page > 0 && Disjoint(sp.maps) && m in sp.maps && 0 < n && d + n <= m.memsz
    ensures Walk(sp, m.vaddr + d, n) == Some(FileBytes(m.fd, m.offset + d, n))
  {
    ScanUnique(sp.maps, m.vaddr + d, m);
    WalkOneRound(sp, m, m.vaddr + d, n);
    var run, r := Run(m, m.vaddr + d, n), FileBytes(m.fd, m.offset + d, n);
    forall i | 0 <= i < n ensures run[i] == r[i] {
      assert run[i] == Within(m, m.vaddr + d + i);
    }
    assert run == r;
  }

  /** A read of all pages of a mapping gives its part of the file and then zeros. */
  lemma ReadsPages(sp: Space, m: Map)
    requires sp.page > 0 && Disjoint(sp.maps) && m in sp.maps && m.memsz > 0
    ensures var n := PageEnd(m, sp.page) - m.vaddr;
            Walk(sp, m.vaddr, n) == Some(FileBytes(m.fd, m.offset, m.memsz) + Zeros(n - m.memsz))
  {
    var n := PageEnd(m, sp.page) - m.vaddr;
    ScanUnique(sp.maps, m.vaddr, m);
    WalkOneRound(sp, m, m.vaddr, n);
    var run, r := Run(m, m.vaddr, n), FileBytes(m.fd, m.offset, m.memsz) + Zeros(n - m.memsz);
    forall i | 0 <= i < n ensures run[i] == r[i] {
      assert run[i] == Within(m, m.vaddr + i);
    }
    assert run == r;
  }

  // --------------------------------------------------------------------------
  // When reads succeed

  ghost predicate Aligned(sp: Space)
    requires sp.page > 0
  {
    forall m :: m in sp.maps || m in sp.shares ==> m.vaddr % sp.page == 0
  }

  /** Behind the last page of a mapping a page begins. */
  lemma PageBoundary(m: Map, page: nat) returns (e: nat)
    requires page > 0 && m.vaddr % page == 0
    ensures PageEnd(m, page) == page * e && PageEnd(m, page) % page == 0 && PageEnd(m, page) - page < End(m)
  {
    var q, k := m.vaddr / page, m.memsz / page;
    e := if m.memsz % page == 0 then q + k else q + k + 1;
    assert page * e == page * q + page * k + if m.memsz % page == 0 then 0 else page;
    MultipleMod(page, e);
  }

  /** No tail contains the beginning of a page. */
  lemma NoBoundaryInTail(m: Map, page: nat, x: nat)
    requires page > 0 && m.vaddr % page == 0 && x % page == 0
    ensures !Tail(m, page, x)
  {
    var e := PageBoundary(m, page);
    var j := x / page;
    assert x == page * j;
    if x < PageEnd(m, page) {
      MultipleBelow(page, j, e);
    }
  }

  /** At the beginning of a page an address has a value only if a mapping is found. */
  lemma BoundaryFound(sp: Space, x: nat)
    requires sp.page > 0 && Aligned(sp) && x % sp.page == 0
    ensures At(sp, x).Some? <==> Find(sp.maps, sp.shares, x).Some?
  {
    forall m | m in sp.maps || m in sp.shares ensures !Tail(m, sp.page, x) {
      NoBoundaryInTail(m, sp.page, x);
    }
  }

  ghost predicate There(sp: Space, y: int)
    requires sp.page > 0
  {
    At(sp, y).Some?
  }

  ghost predicate AllThere(sp: Space, x: int, end: int)
    requires sp.page > 0
  {
    forall y :: x <= y < end ==> There(sp, y)
  }

  /** A read succeeds exactly when its first address is in a mapping and every other one is in a mapping or in the
      rest of a mapping's last page. */
  lemma {:induction false} SucceedsIff(sp: Space, x: nat, size: nat)
    requires sp.page > 0 && Aligned(sp) && Coherent(sp)
    ensures Walk(sp, x, size).Some? <==> size == 0 || (Find(sp.maps, sp.shares, x).Some? && AllThere(sp, x, x + size))
    decreases size
  {
    if size > 0 && Find(sp.maps, sp.shares, x).Some? {
      FindContains(sp, x);
      var m := Find(sp.maps, sp.shares, x).value;
      var n := Round(sp, m, x, size);
      SucceedsIff(sp, x + n, size - n);
      RunThere(sp, m, x, n);
      if size > n {
        var e := PageBoundary(m, sp.page);
        BoundaryFound(sp, x + n);
        assert AllThere(sp, x + n, x + size) ==> There(sp, x + n);
      }
    }
  }

  lemma RunThere(sp: Space, m: Map, x: nat, n: nat)
    requires sp.page > 0 && Coherent(sp) && Find(sp.maps, sp.shares, x) == Some(m) && n <= PageEnd(m, sp.page) - x
    ensures AllThere(sp, x, x + n)
  {
    forall y | x <= y < x + n ensures There(sp, y) {
      assert Unbroken(sp, x, y);
    }
  }

  // --------------------------------------------------------------------------
  // Which mappings are coherent

  /** No two mappings, of either kind, share a page. */
  ghost predicate Separate(sp: Space)
    requires sp.page > 0
  {
    forall m, n :: (m in sp.maps || m in sp.shares) && (n in sp.maps || n in sp.shares) && Touch(m, n, sp.page) ==>
                     m == n
  }

  ghost predicate Touch(m: Map, n: Map, page: nat)
    requires page > 0
  {
    exists x: int :: OnPages(m, page, x) && OnPages(n, page, x)
  }

  predicate OnPages(m: Map, page: nat, x: int)
    requires page > 0
  {
    m.vaddr <= x < PageEnd(m, page)
  }

  lemma SeparateCoherent(sp: Space)
    requires sp.page > 0 && Separate(sp)
    ensures Coherent(sp)
  {
    forall a: nat, x: int ensures Unbroken(sp, a, x) {
      SeparateUnbroken(sp, a, x);
    }
  }

  lemma SeparateUnbroken(sp: Space, a: nat, x: int)
    requires sp.page > 0 && Separate(sp)
    ensures Unbroken(sp, a, x)
  {
    var f := Find(sp.maps, sp.shares, a);
    FindContains(sp, a);
    FindContains(sp, x);
    if f.Some? && a <= x < PageEnd(f.value, sp.page) {
      var m := f.value;
      assert OnPages(m, sp.page, x);
      var g := Find(sp.maps, sp.shares, x);
      if g.Some? {
        assert OnPages(g.value, sp.page, x);
        assert Touch(m, g.value, sp.page);
      } else {
        ScanFinds(sp.maps, x);
        ScanFinds(sp.shares, x);
        assert Tail(m, sp.page, x);
      }
    }
  }

  /** Mappings of either kind that do not overlap, and start at page boundaries, are separate. */
  lemma DisjointSeparate(sp: Space)
    requires sp.page > 0 && Aligned(sp) && Disjoint(sp.maps + sp.shares) && Positive(sp.maps + sp.shares)
    ensures Separate(sp)
  {
    var all := sp.maps + sp.shares;
    forall m, n | m in all && n in all && Touch(m, n, sp.page) ensures m == n {
      if m.vaddr <= n.vaddr {
        SamePage(sp, m, n);
      } else {
        SamePage(sp, n, m);
      }
    }
  }

  lemma SamePage(sp: Space, m: Map, n: Map)
    requires sp.page > 0 && Aligned(sp) && Disjoint(sp.maps + sp.shares) && Positive(sp.maps + sp.shares)
    requires m in sp.maps + sp.shares && n in sp.maps + sp.shares && m.vaddr <= n.vaddr && Touch(m, n, sp.page)
    ensures m == n
  {
    var e := PageBoundary(m, sp.page);
    var j := n.vaddr / sp.page;
    assert n.vaddr == sp.page * j;
    MultipleBelow(sp.page, j, e);
    assert In(m, n.vaddr) && In(n, n.vaddr);
  }

  // --------------------------------------------------------------------------
  // Exactly which mappings are coherent

  /** No class-sharing mapping goes on where another mapping ends inside a page. */
  ghost predicate TailsClear(sp: Space)
    requires sp.page > 0
  {
    forall m, n :: m in sp.maps && n in sp.shares && m.memsz % sp.page != 0 ==> !In(n, End(m))
  }

  /** Where another mapping begins inside a class-sharing mapping, there is another mapping just before. */
  ghost predicate StartsCovered(sp: Space)
  {
    forall m, n :: m in sp.maps && n in sp.shares && In(n, m.vaddr - 1) && In(n, m.vaddr) ==>
                     Scan(sp.maps, m.vaddr - 1).Some?
  }

  /** The class-sharing archive is a file of its own. */
  ghost predicate OwnFile(sp: Space)
  {
    forall m, n :: m in sp.maps && n in sp.shares ==> m.fd != n.fd
  }

  /** A mapping found at some address is alone, among its kind, on the rest of its last page. */
  lemma TailAlone(maps: seq<Map>, page: nat, m: Map, n: Map, a: nat, x: nat)
    requires page > 0 && Disjoint(maps) && m in maps && n in maps && m.vaddr % page == 0 && n.vaddr % page == 0
    requires In(m, a) && Tail(m, page, x)
    ensures !In(n, x)
  {
    NoBoundaryInTail(m, page, n.vaddr);
    if In(n, x) {
      var y := if m.vaddr <= n.vaddr then n.vaddr else m.vaddr;
      assert In(m, y) && In(n, y);
    }
  }

  lemma TailScan(maps: seq<Map>, page: nat, m: Map, a: nat, x: nat)
    requires page > 0 && Disjoint(maps) && m in maps && In(m, a) && Tail(m, page, x)
    requires forall n :: n in maps ==> n.vaddr % page == 0
    ensures Scan(maps, x) == None
  {
    forall n | n in maps ensures !In(n, x) {
      TailAlone(maps, page, m, n, a, x);
    }
    ScanFinds(maps, x);
  }

  /** A mapping that reaches into the rest of a page reaches over its beginning. */
  lemma TailEntered(m: Map, n: Map, page: nat, x: nat)
    requires page > 0 && m.vaddr % page == 0 && n.vaddr % page == 0 && Tail(m, page, x) && In(n, x)
    ensures m.memsz % page != 0 && In(n, End(m))
  {
    NoBoundaryInTail(m, page, n.vaddr);
  }

  lemma CoherentTailClear(sp: Space, m: Map, n: Map)
    requires sp.page > 0 && Aligned(sp) && Disjoint(sp.maps) && Coherent(sp)
    requires m in sp.maps && n in sp.shares && m.memsz % sp.page != 0
    ensures !In(n, End(m))
  {
    var x := End(m);
    ScanUnique(sp.maps, m.vaddr, m);
    TailScan(sp.maps, sp.page, m, m.vaddr, x);
    ScanFinds(sp.shares, x);
    assert Unbroken(sp, m.vaddr, x);
  }

  lemma CoherentTailsClear(sp: Space)
    requires sp.page > 0 && Aligned(sp) && Disjoint(sp.maps) && Coherent(sp)
    ensures TailsClear(sp)
  {
    forall m, n | m in sp.maps && n in sp.shares && m.memsz % sp.page != 0 ensures !In(n, End(m)) {
      CoherentTailClear(sp, m, n);
    }
  }

  lemma CoherentStartsCovered(sp: Space)
    requires sp.page > 0 && OwnFile(sp) && Disjoint(sp.maps) && Positive(sp.maps) && Disjoint(sp.shares)
    requires Coherent(sp)
    ensures StartsCovered(sp)
  {
    forall m, n | m in sp.maps && n in sp.shares && In(n, m.vaddr - 1) && In(n, m.vaddr)
      ensures Scan(sp.maps, m.vaddr - 1).Some?
    {
      var a := m.vaddr - 1;
      ScanUnique(sp.shares, a, n);
      ScanUnique(sp.maps, m.vaddr, m);
      assert Unbroken(sp, a, m.vaddr);
    }
  }

  /** From an address where a class-sharing mapping is found, no other mapping begins on its pages. */
  lemma {:induction false} ShareUncovered(sp: Space, n: Map, a: nat, x: nat)
    requires sp.page > 0 && Aligned(sp) && StartsCovered(sp) && n in sp.shares && In(n, a)
    requires Scan(sp.maps, a) == None && a <= x < PageEnd(n, sp.page)
    ensures Scan(sp.maps, x) == None
    decreases x - a
  {
    if x > a {
      ShareUncovered(sp, n, a, x - 1);
      ScanFinds(sp.maps, x - 1);
      forall m | m in sp.maps ensures !In(m, x) {
        if In(m, x) {
          assert m.vaddr == x;
          NoBoundaryInTail(n, sp.page, x);
          assert In(n, x) && In(n, x - 1);
        }
      }
      ScanFinds(sp.maps, x);
    }
  }

  lemma CoreUnbroken(sp: Space, m: Map, a: nat, x: nat)
    requires sp.page > 0 && Aligned(sp) && Disjoint(sp.maps) && TailsClear(sp)
    requires m in sp.maps && Scan(sp.maps, a) == Some(m) && In(m, a) && a <= x < PageEnd(m, sp.page)
    ensures At(sp, x) == Some(Within(m, x))
  {
    if x < End(m) {
      ScanUnique(sp.maps, x, m);
    } else {
      TailScan(sp.maps, sp.page, m, a, x);
      forall n | n in sp.shares ensures !In(n, x) {
        if In(n, x) {
          TailEntered(m, n, sp.page, x);
        }
      }
      ScanFinds(sp.shares, x);
      assert InSomeTail(sp, x);
    }
  }

  lemma ShareUnbroken(sp: Space, n: Map, a: nat, x: nat)
    requires sp.page > 0 && Aligned(sp) && Disjoint(sp.shares) && StartsCovered(sp)
    requires n in sp.shares && Scan(sp.maps, a) == None && In(n, a) && a <= x < PageEnd(n, sp.page)
    ensures At(sp, x) == Some(Within(n, x))
  {
    ShareUncovered(sp, n, a, x);
    if x < End(n) {
      ScanUnique(sp.shares, x, n);
    } else {
      TailScan(sp.shares, sp.page, n, a, x);
      assert InSomeTail(sp, x);
    }
  }

  lemma ClearCoherent(sp: Space)
    requires sp.page > 0 && Aligned(sp) && Disjoint(sp.maps) && Disjoint(sp.shares)
    requires TailsClear(sp) && StartsCovered(sp)
    ensures Coherent(sp)
  {
    forall a: nat, x: int ensures Unbroken(sp, a, x) {
      var f := Find(sp.maps, sp.shares, a);
      ScanFinds(sp.maps, a);
      ScanFinds(sp.shares, a);
      if f.Some? && a <= x < PageEnd(f.value, sp.page) {
        if Scan(sp.maps, a).Some? {
          CoreUnbroken(sp, f.value, a, x);
        } else {
          ShareUnbroken(sp, f.value, a, x);
        }
      }
    }
  }

  /** With mappings that start at page boundaries, each kind without overlaps, every successful read gives the bytes
      found one by one if and only if no class-sharing mapping goes on where another mapping ends inside a page, and
      no other mapping begins inside an exposed part of a class-sharing mapping. */
  lemma AgreesIffClear(sp: Space)
    requires sp.page > 0 && Aligned(sp) && Disjoint(sp.maps) && Positive(sp.maps) && Disjoint(sp.shares) && OwnFile(sp)
    ensures AllRight(sp) <==> TailsClear(sp) && StartsCovered(sp)
  {
    AgreesIffCoherent(sp);
    if Coherent(sp) {
      CoherentTailsClear(sp);
      CoherentStartsCovered(sp);
    }
    if TailsClear(sp) && StartsCovered(sp) {
      ClearCoherent(sp);
    }
  }

  /** A class-sharing mapping in the rest of the last page of another mapping: read through that page the byte is
      zero, read by itself it comes from the class-sharing file. */
  lemma SharedTailDisagrees()
    ensures var sp := Space([Map(3, 0, 0, 100)], [Map(5, 0, 0, 4096)], 4096);
            && Disjoint(sp.maps) && Positive(sp.maps) && Positive(sp.shares) && Aligned(sp)
            && Walk(sp, 99, 2) == Some([File(3, 99), Zero]) && At(sp, 100) == Some(File(5, 100))
  {
    var m, s := Map(3, 0, 0, 100), Map(5, 0, 0, 4096);
    var sp := Space([m], [s], 4096);
    assert [m][1..] == [] && Scan([], 100) == None;
    assert Scan([m], 100) == None && Scan([s], 100) == Some(s);
    assert Find(sp.maps, sp.shares, 99) == Some(m);
    assert Find(sp.maps, sp.shares, 100) == Some(s);
    WalkOneRound(sp, m, 99, 2);
    assert Run(m, 99, 2) == [File(3, 99), Zero];
  }

  /** A mapping that begins inside a class-sharing mapping: read over its beginning the byte comes from the
      class-sharing file, read by itself from the mapping's. */
  lemma SharedStartDisagrees()
    ensures var sp := Space([Map(3, 0, 4096, 4096)], [Map(5, 0, 0, 8192)], 4096);
            && Disjoint(sp.maps) && Positive(sp.maps) && Disjoint(sp.shares) && Aligned(sp) && OwnFile(sp)
            && Walk(sp, 4095, 2) == Some([File(5, 4095), File(5, 4096)]) && At(sp, 4096) == Some(File(3, 0))
  {
    var m, s := Map(3, 0, 4096, 4096), Map(5, 0, 0, 8192);
    var sp := Space([m], [s], 4096);
    assert [m][1..] == [] && Scan([], 4095) == None;
    assert Scan([m], 4095) == None && Scan([s], 4095) == Some(s);
    assert Find(sp.maps, sp.shares, 4095) == Some(s);
    assert Find(sp.maps, sp.shares, 4096) == Some(m);
    WalkOneRound(sp, s, 4095, 2);
    assert Run(s, 4095, 2) == [File(5, 4095), File(5, 4096)];
  }

  // --------------------------------------------------------------------------
  // Reads of the file that end early

  /** What one file read gets, of the bytes it asks for at address x: all of them, unless `odd` says fewer. None, or a
      negative number, is a failure. */
  function Received(odd: map<int, int>, x: int, asked: nat): (n: int)
    ensures n <= asked
  {
    if x in odd && odd[x] < asked then odd[x] else asked
  }

  /** The zeros written after a file read, with `left` bytes still wanted. */
  function Fill(m: Map, page: nat, left: nat): nat
    requires page > 0
  {
    if m.memsz % page == 0 then 0 else Min(left, page - m.memsz % page)
  }

  /** Bytes of the mapping's file and zeros. */
  function Pieces(m: Map, x: int, got: nat, zeros: nat): seq<Source> {
    seq(got + zeros, i requires 0 <= i < got + zeros =>
      if i < got then Within(m, x + i) else Zero)
  }

  function Prepend(done: seq<Source>, rest: Option<seq<Source>>): Option<seq<Source>> {
    match rest
    case None => None
    case Some(r) => Some(done + r)
  }

  lemma NothingPrepended(w: Option<seq<Source>>)
    ensures Prepend([], w) == w
  {
    if w.Some? {
      assert [] + w.value == w.value;
    }
  }

  /** One round of the loop, of at most `size` bytes; nothing if the file read fails. */
  function Chunk(page: nat, odd: map<int, int>, m: Map, x: nat, size: nat): (r: Option<seq<Source>>)
    requires page > 0 && In(m, x) && size > 0
    ensures r.Some? ==> 0 < |r.value| <= size
  {
    var got := Received(odd, x, Min(size, End(m) - x));
    if got <= 0 then None else Some(Pieces(m, x, got, Fill(m, page, size - got)))
  }

  /** One round at an address; nothing if there is no mapping, or the file read fails. */
  function Next(sp: Space, odd: map<int, int>, x: nat, size: nat): (r: Option<seq<Source>>)
    requires sp.page > 0 && size > 0
    ensures r.Some? ==> 0 < |r.value| <= size
  {
    match Find(sp.maps, sp.shares, x)
    case None => None
    case Some(m) => FindContains(sp, x); Chunk(sp.page, odd, m, x, size)
  }

  /** The sources of the bytes the loop reads, given how the file reads end; nothing if it fails. */
  function Loop(sp: Space, odd: map<int, int>, x: nat, size: nat): Option<seq<Source>>
    requires sp.page > 0
    decreases size
  {
    if size == 0 then Some([])
    else
      match Next(sp, odd, x, size)
      case None => None
      case Some(r) => Prepend(r, Loop(sp, odd, x + |r|, size - |r|))
  }

  /** Zeros only behind the mapping's end: the pieces are a run through the mapping and its last page. */
  lemma PiecesAreRun(m: Map, x: nat, got: nat, zeros: nat)
    requires In(m, x) && got <= End(m) - x && (zeros > 0 ==> got == End(m) - x)
    ensures Pieces(m, x, got, zeros) == Run(m, x, got + zeros)
  {
    forall i | 0 <= i < got + zeros ensures Pieces(m, x, got, zeros)[i] == Run(m, x, got + zeros)[i] {
      assert Run(m, x, got + zeros)[i] == Within(m, x + i);
    }
  }

  lemma FullRound(sp: Space, m: Map, x: nat, size: nat)
    requires sp.page > 0 && In(m, x) && size > 0
    ensures Chunk(sp.page, map[], m, x, size) == Some(Run(m, x, Round(sp, m, x, size)))
  {
    var got := Min(size, End(m) - x);
    PiecesAreRun(m, x, got, Fill(m, sp.page, size - got));
  }

  lemma {:induction false} FullLoop(sp: Space, x: nat, size: nat)
    requires sp.page > 0
    ensures Loop(sp, map[], x, size) == Walk(sp, x, size)
    decreases size
  {
    if size > 0 && Find(sp.maps, sp.shares, x).Some? {
      FindContains(sp, x);
      var m := Find(sp.maps, sp.shares, x).value;
      FullRound(sp, m, x, size);
      FullLoop(sp, x + Round(sp, m, x, size), size - Round(sp, m, x, size));
    }
  }

  /** A read that succeeds gives the bytes found one by one, however its file reads end. */
  ghost predicate RightWith(sp: Space, odd: map<int, int>, x: nat, size: nat)
    requires sp.page > 0
  {
    var w := Loop(sp, odd, x, size);
    w.Some? ==> |w.value| == size && OneByOne(sp, x, w.value)
  }

  ghost predicate AlwaysRight(sp: Space)
    requires sp.page > 0
  {
    forall odd, x: nat, size: nat :: RightWith(sp, odd, x, size)
  }

  /** A mapping that ends inside a page is found at its last address only, so no file read of it can end early. */
  ghost predicate Uncut(sp: Space)
    requires sp.page > 0
  {
    forall a: nat :: UncutAt(sp, a)
  }

  ghost predicate UncutAt(sp: Space, a: nat)
    requires sp.page > 0
  {
    var f := Find(sp.maps, sp.shares, a);
    f.Some? && a + 1 < End(f.value) ==> f.value.memsz % sp.page == 0
  }

  lemma UncutRound(sp: Space, odd: map<int, int>, m: Map, x: nat, size: nat)
    requires sp.page > 0 && size > 0 && Uncut(sp) && Find(sp.maps, sp.shares, x) == Some(m) && In(m, x)
    ensures var r := Chunk(sp.page, odd, m, x, size);
            r.Some? ==> |r.value| <= PageEnd(m, sp.page) - x && r.value == Run(m, x, |r.value|)
  {
    assert UncutAt(sp, x);
    var got := Received(odd, x, Min(size, End(m) - x));
    if got > 0 {
      PiecesAreRun(m, x, got, Fill(m, sp.page, size - got));
    }
  }

  lemma RoundSound(sp: Space, odd: map<int, int>, m: Map, x: nat, size: nat)
    requires sp.page > 0 && Coherent(sp) && Uncut(sp) && size > 0 && Find(sp.maps, sp.shares, x) == Some(m) && In(m, x)
    ensures var r := Chunk(sp.page, odd, m, x, size); r.Some? ==> OneByOne(sp, x, r.value)
  {
    var r := Chunk(sp.page, odd, m, x, size);
    UncutRound(sp, odd, m, x, size);
    if r.Some? {
      RunOneByOne(sp, m, x, |r.value|);
    }
  }

  lemma RightExtends(sp: Space, x: nat, size: nat, r: seq<Source>, rest: Option<seq<Source>>)
    requires sp.page > 0 && |r| <= size && OneByOne(sp, x, r)
    requires rest.Some? ==> |rest.value| == size - |r| && OneByOne(sp, x + |r|, rest.value)
    ensures var w := Prepend(r, rest); w.Some? ==> |w.value| == size && OneByOne(sp, x, w.value)
  {
    if rest.Some? {
      OneByOneConcat(sp, x, r, rest.value);
    }
  }

  lemma {:induction false} LoopSound(sp: Space, odd: map<int, int>, x: nat, size: nat)
    requires sp.page > 0 && Coherent(sp) && Uncut(sp)
    ensures RightWith(sp, odd, x, size)
    decreases size
  {
    if size > 0 && Loop(sp, odd, x, size).Some? {
      FindContains(sp, x);
      var m := Find(sp.maps, sp.shares, x).value;
      var r := Chunk(sp.page, odd, m, x, size).value;
      RoundSound(sp, odd, m, x, size);
      LoopSound(sp, odd, x + |r|, size - |r|);
      RightExtends(sp, x, size, r, Loop(sp, odd, x + |r|, size - |r|));
    }
  }

  /** A file read of two bytes that gets one: the other is taken for the rest of the last page. */
  lemma CutRead(sp: Space, m: Map, a: nat)
    requires sp.page > 0 && Find(sp.maps, sp.shares, a) == Some(m) && In(m, a) && a + 1 < End(m)
    requires m.memsz % sp.page != 0
    ensures Loop(sp, map[a := 1], a, 2) == Some([Within(m, a), Zero]) && Within(m, a + 1) != Zero
  {
    var odd := map[a := 1];
    assert Loop(sp, odd, a + 2, 0) == Some([]);
    assert Pieces(m, a, 1, 1) + [] == [Within(m, a), Zero];
  }

  lemma CutReadWrong(sp: Space, m: Map, a: nat)
    requires sp.page > 0 && Find(sp.maps, sp.shares, a) == Some(m) && In(m, a) && a + 1 < End(m)
    requires m.memsz % sp.page != 0 && Unbroken(sp, a, a + 1)
    ensures !RightWith(sp, map[a := 1], a, 2)
  {
    CutRead(sp, m, a);
    var r := Loop(sp, map[a := 1], a, 2).value;
    assert At(sp, a + 1) != Some(r[1]);
  }

  lemma AlwaysRightUncut(sp: Space, a: nat)
    requires sp.page > 0 && AlwaysRight(sp) && Coherent(sp)
    ensures UncutAt(sp, a)
  {
    FindContains(sp, a);
    var f := Find(sp.maps, sp.shares, a);
    assert Unbroken(sp, a, a + 1);
    if f.Some? && a + 1 < End(f.value) && f.value.memsz % sp.page != 0 {
      CutReadWrong(sp, f.value, a);
    }
  }

  /** However file reads end, every successful read gives the bytes found one by one, if and only if it does so with
      full file reads and no file read of a mapping that ends inside a page can end early. */
  lemma AlwaysRightIff(sp: Space)
    requires sp.page > 0
    ensures AlwaysRight(sp) <==> AllRight(sp) && Uncut(sp)
  {
    AgreesIffCoherent(sp);
    if AllRight(sp) && Uncut(sp) {
      forall odd, x: nat, size: nat ensures RightWith(sp, odd, x, size) {
        LoopSound(sp, odd, x, size);
      }
    }
    if AlwaysRight(sp) {
      forall x: nat, size: nat ensures Right(sp, x, size) {
        FullLoop(sp, x, size);
        assert RightWith(sp, map[], x, size);
      }
      forall a: nat ensures UncutAt(sp, a) {
        AlwaysRightUncut(sp, a);
      }
    }
  }

  // --------------------------------------------------------------------------
  // The core file

  /** The value of a source, given the contents of the files. */
  function Value(content: (int, int) -> byte, src: Source): byte {
    match src
    case File(fd, position) => content(fd, position)
    case Zero => 0
  }

  /** One round more. */
  lemma LoopRound(sp: Space, odd: map<int, int>, x: nat, size: nat, done: seq<Source>, r: seq<Source>)
    requires sp.page > 0 && size > 0 && Next(sp, odd, x, size) == Some(r)
    ensures Prepend(done, Loop(sp, odd, x, size)) == Prepend(done + r, Loop(sp, odd, x + |r|, size - |r|))
  {
    var w := Loop(sp, odd, x + |r|, size - |r|);
    if w.Some? {
      assert done + (r + w.value) == done + r + w.value;
    }
  }

  /** A buffer begins with the values of these sources. */
  ghost predicate Filled(content: (int, int) -> byte, buf: seq<byte>, done: seq<Source>)
  {
    |done| <= |buf| && forall i :: 0 <= i < |done| ==> buf[i] == Value(content, done[i])
  }

  lemma FilledMore(content: (int, int) -> byte, before: seq<byte>, buf: seq<byte>, done: seq<Source>, r: seq<Source>)
    requires Filled(content, before, done) && |done| + |r| <= |buf| == |before|
    requires forall i :: 0 <= i < |done| ==> buf[i] == before[i]
    requires forall k :: |done| <= k < |done| + |r| ==> buf[k] == Value(content, r[k - |done|])
    ensures Filled(content, buf, done + r)
  {
  }

  /** The core file: the list of its mappings, the sorted table, and the mappings of the class-sharing archive with
      the archive's descriptor. */
  class Core {
    var maps: seq<Map>
    var mapArray: seq<Map>
    var shareMaps: seq<Map>
    var classesJsaFd: int

    constructor ()
      ensures maps == [] && mapArray == [] && shareMaps == [] && classesJsaFd == 0
    {
      maps, mapArray, shareMaps, classesJsaFd := [], [], [], 0;
    }

    method AddMap(fd: int, offset: int, vaddr: nat, memsz: nat)
      modifies this`maps
      ensures maps == [Map(fd, offset, vaddr, memsz)] + old(maps)
    {
      maps := [Map(fd, offset, vaddr, memsz)] + maps;
    }

    method AddShareMap(offset: int, vaddr: nat, memsz: nat)
      modifies this`shareMaps
      ensures shareMaps == [Map(classesJsaFd, offset, vaddr, memsz)] + old(shareMaps)
    {
      shareMaps := [Map(classesJsaFd, offset, vaddr, memsz)] + shareMaps;
    }

    /** The table holds the mappings, sorted. */
    ghost predicate Ready()
      reads this
    {
      Sorted(mapArray) && multiset(mapArray) == multiset(maps)
    }

    /** Builds the table anew. The library's sort is modelled by insertion. */
    method SortMapArray()
      modifies this`mapArray
      ensures Ready()
    {
      var table: seq<Map> := [];
      for i := 0 to |maps|
        invariant Sorted(table) && multiset(table) == multiset(maps[..i])
        invariant maps == old(maps)
      {
        InsertSorts(table, maps[i]);
        InsertKeeps(table, maps[i]);
        assert maps[..i + 1] == maps[..i] + [maps[i]];
        table := Insert(table, maps[i]);
      }
      assert maps[..|maps|] == maps;
      mapArray := table;
    }

    /** Binary search in a table of at least one mapping, then the class-sharing mappings. It agrees with a scan of the
        list, and consults the class-sharing mappings only if no other contains the address. */
    method Lookup(x: nat) returns (mp: Option<Map>)
      requires Ready() && maps != [] && Disjoint(maps) && Positive(maps)
      ensures mp == Find(maps, shareMaps, x)
    {
      SameElements(mapArray, maps);
      assert |mapArray| == |multiset(mapArray)| == |multiset(maps)| == |maps|;
      var lo, hi := 0, |mapArray| - 1;
      while hi - lo > 1
        invariant 0 <= lo <= hi < |mapArray|
        invariant lo == 0 || mapArray[lo].vaddr <= x
        invariant hi == |mapArray| - 1 || x < mapArray[hi].vaddr
      {
        var mid := (lo + hi) / 2;
        if x >= mapArray[mid].vaddr {
          lo := mid;
        } else {
          hi := mid;
        }
      }
      var k := if x < mapArray[hi].vaddr then lo else hi;
      OnlyCandidate(mapArray, x, k);
      ScanPermuted(mapArray, maps, x);
      if In(mapArray[k], x) {
        return Some(mapArray[k]);
      }
      mp := ScanShares(x);
    }

    method ScanShares(x: nat) returns (mp: Option<Map>)
      ensures mp == Scan(shareMaps, x)
    {
      var rest := shareMaps;
      while rest != []
        invariant Scan(rest, x) == Scan(shareMaps, x)
      {
        if In(rest[0], x) {
          return Some(rest[0]);
        }
        rest := rest[1..];
      }
      return None;
    }

    /** A read of a file at a position, for address x: it may get less than it asks for, or fail. */
    method Pread(content: (int, int) -> byte, odd: map<int, int>, x: nat, fd: int, buf: array<byte>, at: nat, len: nat,
                 off: int)
      returns (n: int)
      requires at + len <= buf.Length
      modifies buf
      ensures n == Received(odd, x, len)
      ensures forall k :: at <= k < at + n ==> buf[k] == content(fd, off + (k - at))
      ensures forall i :: 0 <= i < buf.Length && !(at <= i < at + n) ==> buf[i] == old(buf[i])
    {
      n := Received(odd, x, len);
      if n > 0 {
        for i := 0 to n
          invariant forall k :: at <= k < at + i ==> buf[k] == content(fd, off + (k - at))
          invariant forall k :: 0 <= k < buf.Length && !(at <= k < at + i) ==> buf[k] == old(buf[k])
        {
          buf[at + i] := content(fd, off + i);
        }
      }
    }

    method Memset(buf: array<byte>, at: nat, len: nat)
      requires at + len <= buf.Length
      modifies buf
      ensures forall k :: at <= k < at + len ==> buf[k] == 0
      ensures forall i :: 0 <= i < buf.Length && !(at <= i < at + len) ==> buf[i] == old(buf[i])
    {
      for i := 0 to len
        invariant forall k :: at <= k < at + i ==> buf[k] == 0
        invariant forall k :: 0 <= k < buf.Length && !(at <= k < at + i) ==> buf[k] == old(buf[k])
      {
        buf[at + i] := 0;
      }
    }

    /** One round: a read of the mapping's file, then zeros if the mapping ends inside a page. Nothing if the read of
        the file fails. */
    method ReadRound(page: nat, content: (int, int) -> byte, odd: map<int, int>, m: Map, x: nat, buf: array<byte>,
                     at: nat)
      returns (n: nat)
      requires page > 0 && In(m, x) && at < buf.Length
      modifies buf
      ensures match Chunk(page, odd, m, x, buf.Length - at)
              case None => n == 0
              case Some(r) => n == |r| && forall k :: at <= k < at + n ==> buf[k] == Value(content, r[k - at])
      ensures forall i :: 0 <= i < at ==> buf[i] == old(buf[i])
    {
      var resid := buf.Length - at;
      var mapoff := x - m.vaddr;
      var len := Min(resid, m.memsz - mapoff);
      var got := Pread(content, odd, x, m.fd, buf, at, len, m.offset + mapoff);
      if got <= 0 {
        return 0;
      }
      assert forall k :: at <= k < at + got ==> buf[k] == Value(content, Within(m, x + (k - at)));
      resid := resid - got;
      n := got;
      var rem := m.memsz % page;
      if rem > 0 {
        rem := page - rem;
        var zeros := Min(resid, rem);
        Memset(buf, at + n, zeros);
        n := n + zeros;
      }
    }

    /** Finds the mapping of an address and reads one round. */
    method ReadNext(page: nat, content: (int, int) -> byte, odd: map<int, int>, x: nat, buf: array<byte>, at: nat)
      returns (n: nat)
      requires page > 0 && Ready() && maps != [] && Disjoint(maps) && Positive(maps) && at < buf.Length
      modifies buf
      ensures match Next(Space(maps, shareMaps, page), odd, x, buf.Length - at)
              case None => n == 0
              case Some(r) => n == |r| && forall k :: at <= k < at + n ==> buf[k] == Value(content, r[k - at])
      ensures forall i :: 0 <= i < at ==> buf[i] == old(buf[i])
    {
      var mp := Lookup(x);
      if mp == None {
        return 0;
      }
      FindContains(Space(maps, shareMaps, page), x);
      n := ReadRound(page, content, odd, mp.value, x, buf, at);
    }

    /** One round of the loop: `goal` is what the whole loop must give, `done` what it has given so far. */
    method ReadMore(page: nat, content: (int, int) -> byte, odd: map<int, int>, x: nat, buf: array<byte>, at: nat,
                    ghost goal: Option<seq<Source>>, ghost done: seq<Source>)
      returns (n: nat, ghost done': seq<Source>)
      requires page > 0 && Ready() && maps != [] && Disjoint(maps) && Positive(maps) && at < buf.Length
      requires |done| == at && Filled(content, buf[..], done)
      requires goal == Prepend(done, Loop(Space(maps, shareMaps, page), odd, x, buf.Length - at))
      modifies buf
      ensures at + n <= buf.Length && |done'| == at + n && Filled(content, buf[..], done')
      ensures n == 0 ==> goal == None
      ensures n > 0 ==> goal == Prepend(done', Loop(Space(maps, shareMaps, page), odd, x + n, buf.Length - at - n))
    {
      ghost var sp := Space(maps, shareMaps, page);
      ghost var before := buf[..];
      n := ReadNext(page, content, odd, x, buf, at);
      if n == 0 {
        assert Filled(content, buf[..], done);
        return 0, done;
      }
      ghost var r := Next(sp, odd, x, buf.Length - at).value;
      LoopRound(sp, odd, x, buf.Length - at, done, r);
      FilledMore(content, before, buf[..], done, r);
      done' := done + r;
    }

    /** Reads a stretch of memory, however the reads of the files end. It succeeds exactly when the loop over the
        mappings does, and then fills the buffer with the values of the loop's sources. */
    method ReadData(page: nat, content: (int, int) -> byte, odd: map<int, int>, x: nat, buf: array<byte>)
      returns (ok: bool)
      requires page > 0 && Ready() && maps != [] && Disjoint(maps) && Positive(maps)
      modifies buf
      ensures var w := Loop(Space(maps, shareMaps, page), odd, x, buf.Length);
              (ok <==> w.Some?) && (ok ==> |w.value| == buf.Length && Filled(content, buf[..], w.value))
    {
      ghost var goal := Loop(Space(maps, shareMaps, page), odd, x, buf.Length);
      ghost var done: seq<Source> := [];
      var resid, addr, pos := buf.Length, x, 0;
      NothingPrepended(goal);
      while resid != 0
        invariant 0 <= resid && pos + resid == buf.Length && addr == x + pos
        invariant |done| == pos && Filled(content, buf[..], done)
        invariant goal == Prepend(done, Loop(Space(maps, shareMaps, page), odd, addr, resid))
        decreases resid
      {
        var n: nat;
        n, done := ReadMore(page, content, odd, addr, buf, pos, goal, done);
        if n == 0 {
          return false;
        }
        resid, addr, pos := resid - n, addr + n, pos + n;
      }
      assert done + [] == done;
      ok := true;
    }
  }
}
