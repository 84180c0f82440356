/**
 Cursor pagination over module names.  The order is any strict total order that
 the database sorts by; a page token is the name that the next page starts at.
 */
module Paging {
  import opened Base

  type Order = (string, string) -> bool

  ghost predicate Collation(lt: Order) {
    && (forall a :: !lt(a, a))
    && (forall a, b, c :: lt(a, b) && lt(b, c) ==> lt(a, c))
    && (forall a, b :: a == b || lt(a, b) || lt(b, a))
  }

  datatype Token = NoToken | Cursor(name: string) | Malformed

  datatype ListError = CouldNotDecodeToken | CouldNotSelect

  datatype PageOf = PageOf(names: seq<string>, next: Token)

  predicate Ascending(s: seq<string>, lt: Order) {
    forall i, j :: 0 <= i < j < |s| ==> lt(s[i], s[j])
  }

  /** The rows that a page starting at a token may show. */
  predicate Reaches(token: Token, name: string, lt: Order) {
    token.Cursor? ==> !lt(name, token.name)
  }

  function Eligible(names: set<string>, token: Token, lt: Order): set<string> {
    set n | n in names && Reaches(token, n, lt)
  }

  method Least(names: set<string>, lt: Order) returns (least: string)
    requires Collation(lt)
    requires names != {}
    ensures least in names
    ensures forall n :: n in names && n != least ==> lt(least, n)
  {
    least :| least in names;
    var rest := names - {least};
    while rest != {}
      invariant rest <= names && least in names && least !in rest
      invariant forall n :: n in names - rest && n != least ==> lt(least, n)
      decreases |rest|
    {
      var n :| n in rest;
      ghost var previous := least;
      if lt(n, least) {
        least := n;
      }
      rest := rest - {n};
      forall m | m in names - rest && m != least
        ensures lt(least, m)
      {
        assert m == n || m == previous || lt(previous, m);
      }
    }
  }

  /** `SELECT ... WHERE name >= token ORDER BY name ASC LIMIT limit`. */
  method Select(names: set<string>, token: Token, limit: nat, lt: Order) returns (rows: seq<string>)
    requires Collation(lt)
    ensures Ascending(rows, lt) && |rows| <= limit
    ensures forall n :: n in rows ==> n in Eligible(names, token, lt)
    ensures forall n :: n in Eligible(names, token, lt) && n !in rows ==>
              |rows| == limit && forall r :: r in rows ==> lt(r, n)
  {
    rows := [];
    var rest := Eligible(names, token, lt);
    while |rows| < limit && rest != {}
      invariant |rows| <= limit && Ascending(rows, lt)
      invariant rest <= Eligible(names, token, lt)
      invariant forall n :: n in Eligible(names, token, lt) <==> n in rows || n in rest
      invariant forall r, n :: r in rows && n in rest ==> lt(r, n)
      decreases |rest|
    {
      var n := Least(rest, lt);
      rows := rows + [n];
      rest := rest - {n};
    }
  }

  /** What one page promises about the names stored when it was read. */
  ghost predicate IsPage(names: set<string>, size: nat, token: Token, page: seq<string>, next: Token, lt: Order) {
    && Ascending(page, lt)
    && |page| <= size
    && (forall n :: n in page ==> n in names && Reaches(token, n, lt))
    && !next.Malformed?
    && (next.NoToken? ==> forall n :: n in names && Reaches(token, n, lt) ==> n in page)
    && (next.Cursor? ==>
          && next.name in names && Reaches(token, next.name, lt)
          && |page| == size
          && (forall n :: n in page ==> lt(n, next.name))
          && (forall n :: n in names && Reaches(token, n, lt) && lt(n, next.name) ==> n in page))
  }

  /** Nothing eligible lies before the cursor without being on the page. */
  lemma CursorCloses(rows: seq<string>, page: seq<string>, cursor: string, eligible: set<string>, lt: Order)
    requires Collation(lt) && rows == page + [cursor]
    requires forall n :: n in eligible && n !in rows ==> forall r :: r in rows ==> lt(r, n)
    ensures forall n :: n in eligible && lt(n, cursor) ==> n in page
  {
    assert cursor in rows;
    assert forall n :: n in rows <==> n in page || n == cursor;
  }

  method ListModules(names: set<string>, pageSize: int, token: Token, lt: Order) returns (r: Result<PageOf, ListError>)
    requires Collation(lt)
    ensures token.Malformed? ==> r == Err(CouldNotDecodeToken)
    ensures !token.Malformed? && pageSize < -1 ==> r == Err(CouldNotSelect)
    ensures !token.Malformed? && pageSize == -1 ==> r == Ok(PageOf([], NoToken))
    ensures !token.Malformed? && pageSize >= 0 ==>
              r.Ok? && IsPage(names, pageSize, token, r.value.names, r.value.next, lt)
  {
    if token.Malformed? {
      return Err(CouldNotDecodeToken);
    }
    if pageSize + 1 < 0 {
      return Err(CouldNotSelect);
    }
    var rows := Select(names, token, pageSize + 1, lt);
    var modules: seq<string>, next := [], NoToken;
    for i := 0 to |rows|
      invariant i <= pageSize || i == 0 ==> modules == rows[..i] && next == NoToken
      invariant 0 < i && pageSize < i ==> modules == rows[..pageSize] && next == Cursor(rows[pageSize])
    {
      if i < pageSize {
        modules := modules + [rows[i]];
      } else {
        next := Cursor(rows[i]);
      }
    }
    if next.Cursor? {
      assert rows == modules + [next.name];
      assert forall n :: n in rows <==> n in modules || n == next.name;
      CursorCloses(rows, modules, next.name, Eligible(names, token, lt), lt);
    } else {
      assert modules == rows;
    }
    return Ok(PageOf(modules, next));
  }

  // ---------------------------------------------------------------------------
  // Following the tokens while modules come and go

  /** One page read: the names stored at that moment, the page, and the token it returned. */
  datatype Visit = Visit(names: set<string>, page: seq<string>, next: Token)

  function LastToken(scan: seq<Visit>): Token {
    if scan == [] then NoToken else scan[|scan| - 1].next
  }

  /** Each page starts where the previous one said; the stored names may differ from page to page. */
  ghost predicate IsScan(scan: seq<Visit>, size: nat, lt: Order) {
    scan != [] ==>
      var init, last := scan[..|scan| - 1], scan[|scan| - 1];
      && IsScan(init, size, lt)
      && (init != [] ==> LastToken(init).Cursor?)
      && IsPage(last.names, size, LastToken(init), last.page, last.next, lt)
  }

  function Listed(scan: seq<Visit>): seq<string> {
    if scan == [] then [] else Listed(scan[..|scan| - 1]) + scan[|scan| - 1].page
  }

  ghost predicate PresentThroughout(scan: seq<Visit>, name: string) {
    forall v :: v in scan ==> name in v.names
  }

  /** The name lies before the token, that is, in the part already scanned. */
  predicate Passed(token: Token, name: string, lt: Order) {
    token.Cursor? ==> lt(name, token.name)
  }

  lemma AppendPage(listed: seq<string>, page: seq<string>, pivot: string, lt: Order)
    requires Collation(lt) && Ascending(listed, lt) && Ascending(page, lt)
    requires forall n :: n in listed ==> lt(n, pivot)
    requires forall n :: n in page ==> !lt(n, pivot)
    ensures Ascending(listed + page, lt)
  {
    forall i, j | 0 <= i < |listed| && 0 <= j < |page|
      ensures lt(listed[i], page[j])
    {
      assert listed[i] in listed && page[j] in page;
      assert pivot == page[j] || lt(pivot, page[j]);
    }
  }

  lemma {:induction false} ListedIsAscending(scan: seq<Visit>, size: nat, lt: Order)
    requires Collation(lt) && IsScan(scan, size, lt)
    ensures Ascending(Listed(scan), lt)
    ensures forall n :: n in Listed(scan) ==> Passed(LastToken(scan), n, lt)
  {
    if scan != [] {
      var init, last := scan[..|scan| - 1], scan[|scan| - 1];
      ListedIsAscending(init, size, lt);
      var token := LastToken(init);
      if init != [] {
        AppendPage(Listed(init), last.page, token.name, lt);
        forall n | n in Listed(init)
          ensures Passed(last.next, n, lt)
        {
          assert last.next.Cursor? ==> token.name == last.next.name || lt(token.name, last.next.name);
        }
      }
    }
  }

  /** Nothing that stayed put is skipped. */
  lemma {:induction false} StayingIsListed(scan: seq<Visit>, size: nat, lt: Order, name: string)
    requires Collation(lt) && IsScan(scan, size, lt) && scan != []
    requires PresentThroughout(scan, name) && Passed(LastToken(scan), name, lt)
    ensures name in Listed(scan)
  {
    var init, last := scan[..|scan| - 1], scan[|scan| - 1];
    assert last in scan;
    if !Reaches(LastToken(init), name, lt) {
      assert PresentThroughout(init, name);
      StayingIsListed(init, size, lt, name);
    }
  }

  /**
   Following the tokens to the end lists every module that was there throughout, once, in ascending
   order overall, whatever was registered or deleted between the pages.
   */
  lemma ScanUnderInterleaving(scan: seq<Visit>, size: nat, lt: Order)
    requires Collation(lt) && IsScan(scan, size, lt)
    requires scan != [] && scan[|scan| - 1].next.NoToken?
    ensures Ascending(Listed(scan), lt)
    ensures forall n :: PresentThroughout(scan, n) ==> n in Listed(scan)
    ensures forall i, j :: 0 <= i < j < |Listed(scan)| ==> Listed(scan)[i] != Listed(scan)[j]
  {
    ListedIsAscending(scan, size, lt);
    forall n | PresentThroughout(scan, n)
      ensures n in Listed(scan)
    {
      StayingIsListed(scan, size, lt, n);
    }
  }

  /** Each token lies beyond the one before it, so a scan with a page size of at least one makes progress. */
  lemma TokensIncrease(scan: seq<Visit>, size: nat, lt: Order)
    requires Collation(lt) && IsScan(scan, size, lt) && size >= 1
    requires |scan| >= 2 && LastToken(scan).Cursor?
    ensures LastToken(scan[..|scan| - 1]).Cursor?
    ensures lt(LastToken(scan[..|scan| - 1]).name, LastToken(scan).name)
  {
    var last := scan[|scan| - 1];
    assert last.page[0] in last.page;
  }

  /** With no writes in between, the scan ends and is the whole table in order. */
  method ListAll(names: set<string>, pageSize: int, lt: Order) returns (all: seq<string>)
    requires Collation(lt) && pageSize >= 1
    ensures Ascending(all, lt)
    ensures forall n :: n in all <==> n in names
  {
    all := [];
    var token := NoToken;
    ghost var scan: seq<Visit> := [];
    var more := true;
    while more
      invariant !token.Malformed? && IsScan(scan, pageSize, lt)
      invariant token == LastToken(scan)
      invariant more <==> scan == [] || token.Cursor?
      invariant all == Listed(scan)
      invariant forall v :: v in scan ==> v.names == names
      invariant forall n :: n in all ==> n in names
      decreases more, Eligible(names, token, lt)
    {
      var r := ListModules(names, pageSize, token, lt);
      ghost var longer := scan + [Visit(names, r.value.names, r.value.next)];
      assert longer[..|longer| - 1] == scan;
      all := all + r.value.names;
      scan := longer;
      more := r.value.next.Cursor?;
      if more {
        PageShrinks(names, pageSize, token, r.value.names, r.value.next, lt);
      }
      token := r.value.next;
    }
    ScanUnderInterleaving(scan, pageSize, lt);
    assert forall n :: n in names ==> PresentThroughout(scan, n);
  }

  lemma PageShrinks(names: set<string>, size: nat, token: Token, page: seq<string>, next: Token, lt: Order)
    requires Collation(lt) && size >= 1
    requires IsPage(names, size, token, page, next, lt) && next.Cursor?
    ensures Eligible(names, next, lt) < Eligible(names, token, lt)
  {
    assert page[0] in page;
    assert page[0] in Eligible(names, token, lt) && page[0] !in Eligible(names, next, lt);
    forall n | n in Eligible(names, next, lt)
      ensures n in Eligible(names, token, lt)
    {
      assert n == next.name || lt(next.name, n);
    }
  }
}
