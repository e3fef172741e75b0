/** The persistence layer: the media table as a class holding the rows by id and the
    ids in creation order, with the four operations the handlers call. Ids come from a
    counter and are never reused; createdAt comes from a clock that strictly increases,
    so the creation order is the createdAt order. A store fault (the database failing)
    is a parameter: the call then reports it and changes nothing. */
module MediaService {
  import opened Wrappers
  import opened MediaSchema

  /** A stored row. */
  datatype Media = Media(
    id: int, title: string, mediaType: MediaType, director: string, budget: string,
    location: string, duration: string, yearTime: string, imageUrl: Option<string>,
    createdAt: int)

  function RecordField(m: Media, f: Field): FieldValue {
    match f
    case Title => Text(m.title)
    case Type => Kind(m.mediaType)
    case Director => Text(m.director)
    case Budget => Text(m.budget)
    case Location => Text(m.location)
    case Duration => Text(m.duration)
    case YearTime => Text(m.yearTime)
    case ImageUrl => Link(m.imageUrl)
  }

  /** No required text of the row is empty. */
  predicate RowValid(m: Media) {
    forall f :: IsText(f) ==> RecordField(m, f) != Text("")
  }

  /** The row an insert of validated data stores. */
  function NewRecord(id: int, data: MediaInput, createdAt: int): (m: Media)
    ensures m.id == id && m.createdAt == createdAt
    ensures forall f :: RecordField(m, f) == InputField(data, f)
    ensures InputValid(data) ==> RowValid(m)
  {
    Media(id, data.title, data.mediaType, data.director, data.budget, data.location,
          data.duration, data.yearTime, data.imageUrl, createdAt)
  }

  /** The supplied value when there is one, the current one otherwise. */
  function Pick<T>(given: Option<T>, current: T): T {
    if given.Some? then given.value else current
  }

  /** The row an update writes: the supplied fields take the new values, every other
      field, the id and createdAt keep theirs. */
  function ApplyPatch(m: Media, p: MediaPatch): (r: Media)
    ensures r.id == m.id && r.createdAt == m.createdAt
    ensures forall f :: Supplied(p, f).None? ==> RecordField(r, f) == RecordField(m, f)
    ensures forall f :: Supplied(p, f).Some? ==> RecordField(r, f) == Supplied(p, f).value
  {
    m.(title := Pick(p.title, m.title), mediaType := Pick(p.mediaType, m.mediaType),
       director := Pick(p.director, m.director), budget := Pick(p.budget, m.budget),
       location := Pick(p.location, m.location), duration := Pick(p.duration, m.duration),
       yearTime := Pick(p.yearTime, m.yearTime), imageUrl := Pick(p.imageUrl, m.imageUrl))
  }

  lemma RecordFieldsDetermineRow(a: Media, b: Media)
    requires a.id == b.id && a.createdAt == b.createdAt
    requires forall f :: RecordField(a, f) == RecordField(b, f)
    ensures a == b
  {
    assert RecordField(a, Title) == RecordField(b, Title);
    assert RecordField(a, Type) == RecordField(b, Type);
    assert RecordField(a, Director) == RecordField(b, Director);
    assert RecordField(a, Budget) == RecordField(b, Budget);
    assert RecordField(a, Location) == RecordField(b, Location);
    assert RecordField(a, Duration) == RecordField(b, Duration);
    assert RecordField(a, YearTime) == RecordField(b, YearTime);
    assert RecordField(a, ImageUrl) == RecordField(b, ImageUrl);
  }

  /** The empty update is a no-op, and applying the same update twice is applying it once. */
  lemma PatchLaws(m: Media, p: MediaPatch)
    ensures ApplyPatch(m, NoChanges) == m
    ensures ApplyPatch(ApplyPatch(m, p), p) == ApplyPatch(m, p)
  {
    RecordFieldsDetermineRow(ApplyPatch(m, NoChanges), m);
    RecordFieldsDetermineRow(ApplyPatch(ApplyPatch(m, p), p), ApplyPatch(m, p));
  }

  /** A validated update never empties a required field. */
  lemma PatchKeepsRowValid(m: Media, p: MediaPatch)
    requires RowValid(m) && PatchValid(p)
    ensures RowValid(ApplyPatch(m, p))
  {
    forall f | IsText(f) ensures RecordField(ApplyPatch(m, p), f) != Text("") {
      assert Supplied(p, f) != Some(Text(""));
    }
  }

  /** A fault the database reports; the handlers pass it on unchanged. */
  datatype DbError = DbError(message: string)

  /** One page of the listing and the number of rows in the whole table. */
  datatype PageResult = PageResult(media: seq<Media>, total: nat)

  /** A call the handlers make into this layer. */
  datatype ServiceCall =
    | CreateCall(data: MediaInput)
    | GetAllCall(page: int, limit: int)
    | UpdateCall(id: int, patch: MediaPatch)
    | DeleteCall(id: int)

  // Pagination arithmetic and slicing.

  function Min(a: int, b: int): int {
    if a <= b then a else b
  }

  /** The offset of a page: (page - 1) * limit. */
  function Skip(page: int, limit: int): (skip: int)
    ensures page >= 1 && limit >= 1 ==> skip >= 0
  {
    (page - 1) * limit
  }

  /** skip/take: the elements at positions [skip, skip + take) that exist. */
  function Window<T>(s: seq<T>, skip: nat, take: nat): (w: seq<T>)
    ensures |w| <= take && (w != [] ==> skip + |w| <= |s|)
    ensures |w| == take || |w| == if skip <= |s| then |s| - skip else 0
    ensures forall i :: 0 <= i < |w| ==> w[i] == s[skip + i]
  {
    s[Min(skip, |s|)..Min(skip + take, |s|)]
  }

  /** The page-th page of limit elements. */
  function PageSlice<T>(s: seq<T>, page: int, limit: int): seq<T>
    requires page >= 1 && limit >= 1
  {
    Window(s, Skip(page, limit), limit)
  }

  predicate Distinct<T(==)>(s: seq<T>) {
    forall i, j :: 0 <= i < j < |s| ==> s[i] != s[j]
  }

  lemma SkipStep(page: int, limit: int)
    requires page >= 1 && limit >= 1
    ensures Skip(page + 1, limit) == Skip(page, limit) + limit
  {
  }

  lemma NoMultipleBelow(x: int, d: int)
    requires d >= 1 && 0 <= d * x < d
    ensures x == 0
  {
  }

  lemma MultipleHasNoRemainder(q: int, d: int)
    requires d >= 1
    ensures (q * d) % d == 0
  {
    var t, r := (q * d) / d, (q * d) % d;
    assert d * (q - t) == r;
    NoMultipleBelow(q - t, d);
  }

  /** For page, limit >= 1 the offset is a whole number of pages. */
  lemma SkipIsWholePages(page: int, limit: int)
    requires page >= 1 && limit >= 1
    ensures Skip(page, limit) >= 0 && Skip(page, limit) % limit == 0
  {
    MultipleHasNoRemainder(page - 1, limit);
  }

  /** Consecutive pages are adjacent: together they are the window of two pages'
      worth of elements starting at the first one's offset. */
  lemma PagesAdjacent<T>(s: seq<T>, page: int, limit: int)
    requires page >= 1 && limit >= 1
    ensures PageSlice(s, page, limit) + PageSlice(s, page + 1, limit) == Window(s, Skip(page, limit), 2 * limit)
  {
    SkipStep(page, limit);
    var skip := Skip(page, limit);
    assert PageSlice(s, page + 1, limit) == Window(s, skip + limit, limit);
  }

  lemma SkipMonotone(p: int, q: int, limit: int)
    requires 1 <= p < q && limit >= 1
    ensures Skip(p, limit) + limit <= Skip(q, limit)
  {
    assert (q - 1) * limit - (p - 1) * limit == (q - p) * limit;
    assert (q - p) * limit >= limit;
  }

  /** Different pages of a listing without repeats share no element. */
  lemma PagesDisjoint<T>(s: seq<T>, p: int, q: int, limit: int)
    requires p >= 1 && q >= 1 && limit >= 1 && p != q
    requires Distinct(s)
    ensures forall x :: x in PageSlice(s, p, limit) ==> x !in PageSlice(s, q, limit)
  {
    if p < q { SkipMonotone(p, q, limit); } else { SkipMonotone(q, p, limit); }
    var a, b := PageSlice(s, p, limit), PageSlice(s, q, limit);
    forall i, j | 0 <= i < |a| && 0 <= j < |b| ensures a[i] != b[j] {
      assert Skip(p, limit) + i != Skip(q, limit) + j;
    }
  }

  /** Pages 1..n laid end to end. */
  function FirstPages<T>(s: seq<T>, n: nat, limit: int): seq<T>
    requires limit >= 1
  {
    if n == 0 then [] else FirstPages(s, n - 1, limit) + PageSlice(s, n, limit)
  }

  /** Reading pages 1..n in turn yields exactly the first n * limit elements (or all
      of them): no element is skipped or repeated. */
  lemma {:induction false} FirstPagesArePrefix<T>(s: seq<T>, n: nat, limit: int)
    requires limit >= 1
    ensures FirstPages(s, n, limit) == s[..Min(n * limit, |s|)]
  {
    if n > 0 {
      FirstPagesArePrefix(s, n - 1, limit);
      assert Skip(n, limit) == (n - 1) * limit;
      assert (n - 1) * limit + limit == n * limit;
      var a := Min((n - 1) * limit, |s|);
      var b := Min(n * limit, |s|);
      assert PageSlice(s, n, limit) == s[a..b];
      assert s[..a] + s[a..b] == s[..b];
    }
  }

  // The table order.

  /** The rows newest first (createdAt descending): the reverse of the creation order. */
  function NewestFirst(rows: map<int, Media>, order: seq<int>): (r: seq<Media>)
    requires forall i :: 0 <= i < |order| ==> order[i] in rows
    ensures |r| == |order|
    ensures forall k :: 0 <= k < |r| ==> r[k] == rows[order[|order| - 1 - k]]
  {
    seq(|order|, k requires 0 <= k < |order| => rows[order[|order| - 1 - k]])
  }

  /** order lists every row exactly once, oldest first. */
  ghost predicate TableOrder(rows: map<int, Media>, order: seq<int>) {
    && (forall i :: 0 <= i < |order| ==> order[i] in rows)
    && (forall id :: id in rows ==> id in order)
    && (forall i, j :: 0 <= i < j < |order| ==> rows[order[i]].createdAt < rows[order[j]].createdAt)
  }

  lemma {:induction false} DistinctSize(s: seq<int>)
    requires Distinct(s)
    ensures |set x | x in s| == |s|
  {
    if s != [] {
      var init := s[..|s| - 1];
      assert Distinct(init);
      DistinctSize(init);
      assert (set x | x in s) == (set x | x in init) + {s[|s| - 1]};
      assert s[|s| - 1] !in init;
    }
  }

  /** A table order names as many ids as the table has rows. */
  lemma TableSize(rows: map<int, Media>, order: seq<int>)
    requires TableOrder(rows, order)
    ensures |rows| == |order|
  {
    TableOrderDistinct(rows, order);
    DistinctSize(order);
    var keys := set x | x in order;
    forall x | x in rows.Keys ensures x in keys {
    }
    assert keys == rows.Keys;
  }

  /** The newest-first listing is sorted by createdAt descending: the order
      findMany's orderBy { createdAt: "desc" } returns. */
  lemma ListingSorted(rows: map<int, Media>, order: seq<int>)
    requires TableOrder(rows, order)
    ensures var l := NewestFirst(rows, order);
      forall i, j :: 0 <= i < j < |l| ==> l[i].createdAt > l[j].createdAt
  {
    var l, n := NewestFirst(rows, order), |order|;
    forall i, j | 0 <= i < j < n ensures l[i].createdAt > l[j].createdAt {
      assert l[i] == rows[order[n - 1 - i]] && l[j] == rows[order[n - 1 - j]];
    }
  }

  /** The listing repeats no row: strictly decreasing createdAt leaves no room for two
      equal entries. */
  lemma ListingDistinct(rows: map<int, Media>, order: seq<int>)
    requires TableOrder(rows, order)
    ensures Distinct(NewestFirst(rows, order))
  {
    ListingSorted(rows, order);
  }

  /** Two different pages of the table's listing share no row. */
  lemma ListedPagesDisjoint(rows: map<int, Media>, order: seq<int>, p: int, q: int, limit: int)
    requires TableOrder(rows, order)
    requires p >= 1 && q >= 1 && limit >= 1 && p != q
    ensures var l := NewestFirst(rows, order);
      forall m :: m in PageSlice(l, p, limit) ==> m !in PageSlice(l, q, limit)
  {
    ListingDistinct(rows, order);
    PagesDisjoint(NewestFirst(rows, order), p, q, limit);
  }

  /** Every entry of the newest-first listing is the table's row under its id. */
  lemma ListingRowsFromTable(rows: map<int, Media>, order: seq<int>)
    requires TableOrder(rows, order)
    requires forall id :: id in rows ==> rows[id].id == id
    ensures var l := NewestFirst(rows, order);
      forall k :: 0 <= k < |l| ==> l[k].id in rows && rows[l[k].id] == l[k]
  {
    var l, n := NewestFirst(rows, order), |order|;
    forall k | 0 <= k < n ensures l[k].id in rows && rows[l[k].id] == l[k] {
      var id := order[n - 1 - k];
      assert id in rows && l[k] == rows[id];
      assert rows[id].id == id;
    }
  }

  /** Every row of the table appears in the newest-first listing. */
  lemma ListingCoversTable(rows: map<int, Media>, order: seq<int>)
    requires TableOrder(rows, order)
    requires forall id :: id in rows ==> rows[id].id == id
    ensures var l := NewestFirst(rows, order);
      forall id :: id in rows ==> exists k :: 0 <= k < |l| && l[k].id == id
  {
    var l, n := NewestFirst(rows, order), |order|;
    forall id | id in rows ensures exists k :: 0 <= k < n && l[k].id == id {
      var i :| 0 <= i < n && order[i] == id;
      assert l[n - 1 - i].id == id;
    }
  }

  lemma NewestFirstAppend(rows: map<int, Media>, order: seq<int>, m: Media)
    requires forall i :: 0 <= i < |order| ==> order[i] in rows
    requires m.id !in rows
    ensures NewestFirst(rows[m.id := m], order + [m.id]) == [m] + NewestFirst(rows, order)
  {
    var l := NewestFirst(rows[m.id := m], order + [m.id]);
    var old_l := NewestFirst(rows, order);
    forall k | 0 <= k < |l| ensures l[k] == ([m] + old_l)[k] {
      if k > 0 {
        assert (order + [m.id])[|order| - k] == order[|order| - k];
      }
    }
  }

  lemma NewestFirstUpdate(rows: map<int, Media>, order: seq<int>, m: Media)
    requires forall i :: 0 <= i < |order| ==> order[i] in rows
    requires m.id in rows
    ensures var before, after := NewestFirst(rows, order), NewestFirst(rows[m.id := m], order);
      |after| == |before| && forall k :: 0 <= k < |after| ==> after[k] == if order[|order| - 1 - k] == m.id then m else before[k]
  {
  }

  /** s without its k-th element. */
  function RemoveAt<T>(s: seq<T>, k: int): (r: seq<T>)
    requires 0 <= k < |s|
    ensures |r| == |s| - 1
    ensures forall i :: 0 <= i < |r| ==> r[i] == if i < k then s[i] else s[i + 1]
  {
    s[..k] + s[k + 1..]
  }

  lemma TableOrderDistinct(rows: map<int, Media>, order: seq<int>)
    requires TableOrder(rows, order)
    ensures Distinct(order)
  {
    forall i, j | 0 <= i < j < |order| ensures order[i] != order[j] {
      assert rows[order[i]].createdAt < rows[order[j]].createdAt;
    }
  }

  /** After dropping one row and its id, every remaining row's id is still in the order. */
  lemma RemoveKeepsCoverage(rows: map<int, Media>, order: seq<int>, k: int)
    requires TableOrder(rows, order) && 0 <= k < |order|
    ensures forall x :: x in rows - {order[k]} ==> x in RemoveAt(order, k)
  {
    TableOrderDistinct(rows, order);
    var rest := RemoveAt(order, k);
    forall x | x in rows - {order[k]} ensures x in rest {
      var i :| 0 <= i < |order| && order[i] == x;
      if i < k { assert rest[i] == x; } else { assert rest[i - 1] == x; }
    }
  }

  lemma RemoveKeepsAscending(rows: map<int, Media>, order: seq<int>, k: int)
    requires TableOrder(rows, order) && 0 <= k < |order|
    ensures var rest := RemoveAt(order, k);
      forall i1, i2 :: 0 <= i1 < i2 < |rest| ==> rows[rest[i1]].createdAt < rows[rest[i2]].createdAt
  {
    var rest := RemoveAt(order, k);
    forall i1, i2 | 0 <= i1 < i2 < |rest| ensures rows[rest[i1]].createdAt < rows[rest[i2]].createdAt {
      var o1 := if i1 < k then i1 else i1 + 1;
      var o2 := if i2 < k then i2 else i2 + 1;
      assert rest[i1] == order[o1] && rest[i2] == order[o2];
    }
  }

  lemma RemoveKeepsMembership(rows: map<int, Media>, order: seq<int>, k: int)
    requires TableOrder(rows, order) && 0 <= k < |order|
    ensures var rest := RemoveAt(order, k);
      forall i :: 0 <= i < |rest| ==> rest[i] in rows - {order[k]}
  {
    TableOrderDistinct(rows, order);
  }

  /** Dropping one row and its id keeps the order a creation order of the rest. */
  lemma RemoveKeepsTableOrder(rows: map<int, Media>, order: seq<int>, k: int)
    requires TableOrder(rows, order) && 0 <= k < |order|
    ensures TableOrder(rows - {order[k]}, RemoveAt(order, k))
  {
    RemoveKeepsCoverage(rows, order, k);
    RemoveKeepsAscending(rows, order, k);
    RemoveKeepsMembership(rows, order, k);
  }

  /** Dropping position k of the creation order drops the mirrored position of the
      newest-first listing, whatever map the remaining ids are looked up in, as long as
      it agrees with the old one on them. */
  lemma NewestFirstDrop(rows: map<int, Media>, smaller: map<int, Media>, order: seq<int>, k: int)
    requires 0 <= k < |order|
    requires forall i :: 0 <= i < |order| ==> order[i] in rows
    requires var rest := RemoveAt(order, k);
      forall i :: 0 <= i < |rest| ==> rest[i] in smaller && smaller[rest[i]] == rows[rest[i]]
    ensures NewestFirst(smaller, RemoveAt(order, k)) == RemoveAt(NewestFirst(rows, order), |order| - 1 - k)
  {
    var rest := RemoveAt(order, k);
    var before, j := NewestFirst(rows, order), |order| - 1 - k;
    var after := NewestFirst(smaller, rest);
    forall i | 0 <= i < |after| ensures after[i] == RemoveAt(before, j)[i] {
      if i < j {
        assert rest[|rest| - 1 - i] == order[|order| - 1 - i];
      } else {
        assert rest[|rest| - 1 - i] == order[|order| - 2 - i];
      }
    }
  }

  lemma NewestFirstRemove(rows: map<int, Media>, order: seq<int>, k: int)
    requires TableOrder(rows, order) && 0 <= k < |order|
    ensures TableOrder(rows - {order[k]}, RemoveAt(order, k))
    ensures NewestFirst(rows - {order[k]}, RemoveAt(order, k)) == RemoveAt(NewestFirst(rows, order), |order| - 1 - k)
  {
    RemoveKeepsMembership(rows, order, k);
    NewestFirstDrop(rows, rows - {order[k]}, order, k);
    RemoveKeepsTableOrder(rows, order, k);
  }

  /** Deleting the row at position k of the creation order keeps the order invariant
      and removes exactly that row's entry from the newest-first listing. */
  lemma ListingAfterDelete(rows: map<int, Media>, order: seq<int>, k: int)
    requires TableOrder(rows, order) && 0 <= k < |order|
    requires forall id :: id in rows ==> rows[id].id == id
    ensures TableOrder(rows - {order[k]}, RemoveAt(order, k))
    ensures var l := NewestFirst(rows, order);
      exists j :: 0 <= j < |l| && l[j].id == order[k]
        && NewestFirst(rows - {order[k]}, RemoveAt(order, k)) == RemoveAt(l, j)
  {
    NewestFirstRemove(rows, order, k);
    var l, j := NewestFirst(rows, order), |order| - 1 - k;
    assert l[j] == rows[order[k]];
  }

  /** What the table keeps between calls: ids below the next one are the issued ones,
      each row sits under its own id and was created before the clock, and the
      creation order lists the rows oldest first. */
  ghost predicate StoreInvariant(rows: map<int, Media>, order: seq<int>, issued: set<int>, nextId: int, clock: int) {
    && 1 <= nextId
    && (forall id :: id in issued ==> 1 <= id < nextId)
    && rows.Keys <= issued
    && (forall id :: id in rows ==> rows[id].id == id && rows[id].createdAt < clock)
    && TableOrder(rows, order)
  }

  /** Deleting the k-th row of the creation order keeps the table's invariant, and
      the listing afterwards is the listing before without that row's entry. */
  lemma DeleteFromTable(rows: map<int, Media>, order: seq<int>, issued: set<int>, nextId: int, clock: int, k: int)
    requires StoreInvariant(rows, order, issued, nextId, clock) && 0 <= k < |order|
    ensures StoreInvariant(rows - {order[k]}, RemoveAt(order, k), issued, nextId, clock)
    ensures var l := NewestFirst(rows, order);
      exists j :: 0 <= j < |l| && l[j].id == order[k]
        && NewestFirst(rows - {order[k]}, RemoveAt(order, k)) == RemoveAt(l, j)
  {
    ListingAfterDelete(rows, order, k);
  }

  /** Inserting a row under the next id, created at the current clock, keeps the
      table's invariant, and the listing afterwards is the new row followed by the
      listing before. */
  lemma InsertIntoTable(rows: map<int, Media>, order: seq<int>, issued: set<int>, nextId: int, clock: int, m: Media)
    requires StoreInvariant(rows, order, issued, nextId, clock)
    requires m.id == nextId && m.createdAt == clock
    ensures nextId !in issued && nextId !in rows
    ensures StoreInvariant(rows[nextId := m], order + [nextId], issued + {nextId}, nextId + 1, clock + 1)
    ensures NewestFirst(rows[nextId := m], order + [nextId]) == [m] + NewestFirst(rows, order)
  {
    NewestFirstAppend(rows, order, m);
    var rows', order' := rows[nextId := m], order + [nextId];
    forall i, j | 0 <= i < j < |order'| ensures rows'[order'[i]].createdAt < rows'[order'[j]].createdAt {
      assert order'[i] == order[i] && order[i] in rows && order[i] != nextId;
      if j < |order| {
        assert order'[j] == order[j] && order[j] in rows && order[j] != nextId;
      }
    }
  }

  /** Rewriting a row in place, under its id and with its creation time, keeps the
      table's invariant, and the listing afterwards holds the new row where the old
      one was and is otherwise unchanged. */
  lemma UpdateInTable(rows: map<int, Media>, order: seq<int>, issued: set<int>, nextId: int, clock: int, m: Media)
    requires StoreInvariant(rows, order, issued, nextId, clock)
    requires m.id in rows && m.createdAt == rows[m.id].createdAt
    ensures StoreInvariant(rows[m.id := m], order, issued, nextId, clock)
    ensures var before, after := NewestFirst(rows, order), NewestFirst(rows[m.id := m], order);
      |after| == |before| && forall k :: 0 <= k < |after| ==> after[k] == if before[k].id == m.id then m else before[k]
  {
    NewestFirstUpdate(rows, order, m);
    var before, n := NewestFirst(rows, order), |order|;
    forall k | 0 <= k < n ensures before[k].id == order[n - 1 - k] {
      assert before[k] == rows[order[n - 1 - k]];
    }
    var rows' := rows[m.id := m];
    forall i, j | 0 <= i < j < n ensures rows'[order[i]].createdAt < rows'[order[j]].createdAt {
      assert rows'[order[i]].createdAt == rows[order[i]].createdAt;
      assert rows'[order[j]].createdAt == rows[order[j]].createdAt;
    }
  }

  /** The media table. */
  class MediaStore {
    var rows: map<int, Media>
    var order: seq<int>
    var nextId: int
    var clock: int
    /** Every id ever handed out, deleted rows' included. */
    ghost var issued: set<int>
    /** The calls made into this layer so far, oldest first. */
    ghost var calls: seq<ServiceCall>

    ghost predicate Valid()
      reads this`rows, this`order, this`nextId, this`clock, this`issued
    {
      StoreInvariant(rows, order, issued, nextId, clock)
    }

    /** Every row keeps its required text non-empty. */
    ghost predicate RowsValid()
      reads this`rows
    {
      forall id :: id in rows ==> RowValid(rows[id])
    }

    constructor ()
      ensures Valid() && RowsValid()
      ensures rows == map[] && order == [] && issued == {} && calls == []
    {
      rows, order, nextId, clock := map[], [], 1, 0;
      issued, calls := {}, [];
    }

    /** The table newest first. */
    function Listing(): (r: seq<Media>)
      reads this`rows, this`order, this`nextId, this`clock, this`issued
      requires Valid()
      ensures |r| == |rows|
    {
      TableSize(rows, order);
      NewestFirst(rows, order)
    }

    /** createMedia: inserts one row holding the data under a fresh id, newer than
        every row before it; no existing row changes. */
    method CreateMedia(data: MediaInput, failure: Option<DbError>) returns (r: Result<Media, DbError>)
      requires Valid()
      modifies this
      ensures Valid()
      ensures calls == old(calls) + [CreateCall(data)]
      ensures failure.Some? ==> r == Failure(failure.value) && rows == old(rows) && order == old(order)
      ensures failure.None? ==>
        && r.Success?
        && r.value.id !in old(issued)
        && r.value == NewRecord(r.value.id, data, r.value.createdAt)
        && (forall id :: id in old(rows) ==> old(rows)[id].createdAt < r.value.createdAt)
        && rows == old(rows)[r.value.id := r.value]
        && Listing() == [r.value] + old(Listing())
      ensures old(RowsValid()) && InputValid(data) ==> RowsValid()
    {
      calls := calls + [CreateCall(data)];
      if failure.Some? {
        return Failure(failure.value);
      }
      var m := NewRecord(nextId, data, clock);
      InsertIntoTable(rows, order, issued, nextId, clock, m);
      rows := rows[nextId := m];
      order := order + [nextId];
      issued := issued + {nextId};
      nextId := nextId + 1;
      clock := clock + 1;
      r := Success(m);
    }

    /** getAllMedia: the page-th page of limit rows newest first, and the row count,
        both read from the same state; nothing changes. */
    method GetAllMedia(page: int, limit: int, failure: Option<DbError>) returns (r: Result<PageResult, DbError>)
      requires Valid() && page >= 1 && limit >= 1
      modifies this`calls
      ensures Valid()
      ensures calls == old(calls) + [GetAllCall(page, limit)]
      ensures failure.Some? ==> r == Failure(failure.value)
      ensures failure.None? ==> r == Success(PageResult(PageSlice(Listing(), page, limit), |rows|))
    {
      calls := calls + [GetAllCall(page, limit)];
      if failure.Some? {
        return Failure(failure.value);
      }
      var skip := Skip(page, limit);
      var media := Window(Listing(), skip, limit);
      r := Success(PageResult(media, |rows|));
    }

    /** updateMedia: rewrites the supplied fields of row id and nothing else; None
        when there is no such row. */
    method UpdateMedia(id: int, patch: MediaPatch, failure: Option<DbError>) returns (r: Result<Option<Media>, DbError>)
      requires Valid()
      modifies this
      ensures Valid()
      ensures calls == old(calls) + [UpdateCall(id, patch)]
      ensures order == old(order) && issued == old(issued)
      ensures failure.Some? ==> r == Failure(failure.value) && rows == old(rows)
      ensures failure.None? && id !in old(rows) ==> r == Success(None) && rows == old(rows)
      ensures failure.None? && id in old(rows) ==>
        && r == Success(Some(ApplyPatch(old(rows)[id], patch)))
        && rows == old(rows)[id := r.value.value]
        && |Listing()| == |old(Listing())|
        && (forall k :: 0 <= k < |Listing()| ==>
              Listing()[k] == if old(Listing())[k].id == id then r.value.value else old(Listing())[k])
      ensures old(RowsValid()) && PatchValid(patch) ==> RowsValid()
    {
      calls := calls + [UpdateCall(id, patch)];
      if failure.Some? {
        return Failure(failure.value);
      }
      if id !in rows {
        return Success(None);
      }
      var m := ApplyPatch(rows[id], patch);
      if RowValid(rows[id]) && PatchValid(patch) {
        PatchKeepsRowValid(rows[id], patch);
      }
      UpdateInTable(rows, order, issued, nextId, clock, m);
      rows := rows[id := m];
      r := Success(Some(m));
    }

    /** deleteMedia: removes row id and nothing else, returning it; None when there
        is no such row. */
    method DeleteMedia(id: int, failure: Option<DbError>) returns (r: Result<Option<Media>, DbError>)
      requires Valid()
      modifies this`rows, this`order, this`calls
      ensures Valid()
      ensures calls == old(calls) + [DeleteCall(id)]
      ensures issued == old(issued)
      ensures failure.Some? ==> r == Failure(failure.value) && rows == old(rows) && order == old(order)
      ensures failure.None? && id !in old(rows) ==> r == Success(None) && rows == old(rows) && order == old(order)
      ensures failure.None? && id in old(rows) ==>
        && r == Success(Some(old(rows)[id]))
        && rows == old(rows) - {id}
        && exists j :: 0 <= j < |old(Listing())| && old(Listing())[j].id == id
             && Listing() == RemoveAt(old(Listing()), j)
      ensures old(RowsValid()) ==> RowsValid()
    {
      ghost var before := Listing();
      calls := calls + [DeleteCall(id)];
      if failure.Some? {
        r := Failure(failure.value);
      } else if id !in rows {
        r := Success(None);
      } else {
        var m := rows[id];
        var k :| 0 <= k < |order| && order[k] == id;
        DeleteFromTable(rows, order, issued, nextId, clock, k);
        rows := rows - {id};
        order := RemoveAt(order, k);
        r := Success(Some(m));
      }
    }
  }
}
