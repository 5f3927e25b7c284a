/**
 * The document collections of the database, seen as sequences of rows in
 * their natural (insertion) order, and the query stages the handlers use on
 * them: lookup by id, match, sort by creation time, skip and limit.
 */
module Tables {

  /** A document identifier (a MongoDB ObjectId). */
  type Id = nat

  datatype Option<+T> = None | Some(value: T)

  /** A stored document: its `_id`, its `createdAt` timestamp and its own fields. */
  datatype Row<T> = Row(id: Id, createdAt: nat, doc: T)

  type Table<T> = seq<Row<T>>

  /** Ids and creation times strictly increase along the table. */
  ghost predicate Chronological<T>(t: Table<T>) {
    forall i, j :: 0 <= i < j < |t| ==> t[i].id < t[j].id && t[i].createdAt < t[j].createdAt
  }

  /** Chronological, and every id and timestamp was handed out before `clock`. */
  ghost predicate WellFormed<T>(t: Table<T>, clock: nat) {
    && Chronological(t)
    && forall i :: 0 <= i < |t| ==> t[i].id < clock && t[i].createdAt < clock
  }

  /** No two rows hold the same document. */
  ghost predicate DistinctDocs<T>(t: Table<T>) {
    forall i, j :: 0 <= i < j < |t| ==> t[i].doc != t[j].doc
  }

  /** `findById`: the position of the row with this id (the first, should there be several). */
  function Find<T>(t: Table<T>, id: Id): (r: Option<nat>)
    ensures r.Some? ==> r.value < |t| && t[r.value].id == id
    ensures r.Some? ==> forall k :: 0 <= k < r.value ==> t[k].id != id
    ensures r.None? ==> forall k :: 0 <= k < |t| ==> t[k].id != id
  {
    if |t| == 0 then None
    else if t[0].id == id then Some(0)
    else match Find(t[1..], id)
      case None => None
      case Some(k) =>
        assert t[1..][k] == t[k + 1];
        Some(k + 1)
  }

  /** `findById` returning the document: the row with this id, if any. */
  function Lookup<T>(t: Table<T>, id: Id): (r: Option<Row<T>>)
    ensures r.Some? ==> r.value in t && r.value.id == id
    ensures r.None? ==> forall k :: 0 <= k < |t| ==> t[k].id != id
  {
    match Find(t, id)
    case None => None
    case Some(k) => Some(t[k])
  }

  /** `findOne` on all fields: the position of the first row holding exactly this document. */
  function FindDoc<T(==)>(t: Table<T>, d: T): (r: Option<nat>)
    ensures r.Some? ==> r.value < |t| && t[r.value].doc == d
    ensures r.Some? ==> forall k :: 0 <= k < r.value ==> t[k].doc != d
    ensures r.None? ==> forall k :: 0 <= k < |t| ==> t[k].doc != d
  {
    if |t| == 0 then None
    else if t[0].doc == d then Some(0)
    else match FindDoc(t[1..], d)
      case None => None
      case Some(k) =>
        assert t[1..][k] == t[k + 1];
        Some(k + 1)
  }

  /** `create`: the new document is stored last, with the clock as its id and timestamp. */
  function Insert<T>(t: Table<T>, clock: nat, d: T): (r: Table<T>)
  {
    t + [Row(clock, clock, d)]
  }

  /** `deleteOne` on the row at position `k`. */
  function RemoveAt<T>(t: Table<T>, k: nat): (r: Table<T>)
    requires k < |t|
    ensures |r| == |t| - 1
    ensures forall i :: 0 <= i < k ==> r[i] == t[i]
    ensures forall i :: k <= i < |r| ==> r[i] == t[i + 1]
  {
    t[..k] + t[k + 1..]
  }

  /** `$match`: the rows whose document satisfies `keep`, in table order. */
  function Where<T>(t: Table<T>, keep: T -> bool): (r: Table<T>)
    ensures |r| <= |t|
    ensures forall k :: 0 <= k < |r| ==> r[k] in t && keep(r[k].doc)
    ensures forall k :: 0 <= k < |t| && keep(t[k].doc) ==> t[k] in r
  {
    if |t| == 0 then []
    else
      var rest := Where(t[1..], keep);
      assert forall k :: 0 <= k < |t| - 1 ==> t[1..][k] == t[k + 1];
      if keep(t[0].doc) then [t[0]] + rest else rest
  }

  /** A match stage keeps the creation order of the table. */
  lemma {:induction false} WhereChronological<T>(t: Table<T>, keep: T -> bool)
    requires Chronological(t)
    ensures Chronological(Where(t, keep))
  {
    if |t| > 0 {
      ChronologicalTail(t);
      WhereChronological(t[1..], keep);
      WhereCons(t, keep);
      if keep(t[0].doc) {
        WhereAbove(t[1..], keep, t[0].id, t[0].createdAt);
        ChronologicalCons(t[0], Where(t[1..], keep));
      }
    }
  }

  /** The rows after the first of a chronological table are chronological and newer than it. */
  lemma ChronologicalTail<T>(t: Table<T>)
    requires Chronological(t) && |t| > 0
    ensures Chronological(t[1..])
    ensures forall k :: 0 <= k < |t[1..]| ==> t[0].id < t[1..][k].id && t[0].createdAt < t[1..][k].createdAt
  {
    forall k | 0 <= k < |t[1..]|
      ensures t[0].id < t[1..][k].id && t[0].createdAt < t[1..][k].createdAt
    {
      assert t[1..][k] == t[k + 1];
    }
  }

  /** A row older than every row of a chronological table can be put in front of it. */
  lemma ChronologicalCons<T>(x: Row<T>, rest: Table<T>)
    requires Chronological(rest)
    requires forall k :: 0 <= k < |rest| ==> x.id < rest[k].id && x.createdAt < rest[k].createdAt
    ensures Chronological([x] + rest)
  {
    var r := [x] + rest;
    forall i, j | 0 <= i < j < |r|
      ensures r[i].id < r[j].id && r[i].createdAt < r[j].createdAt
    {
      assert r[j] == rest[j - 1];
      if i > 0 {
        assert r[i] == rest[i - 1];
      }
    }
  }

  lemma {:induction false} WhereAbove<T>(t: Table<T>, keep: T -> bool, id: Id, at: nat)
    requires forall k :: 0 <= k < |t| ==> id < t[k].id && at < t[k].createdAt
    ensures forall k :: 0 <= k < |Where(t, keep)| ==> id < Where(t, keep)[k].id && at < Where(t, keep)[k].createdAt
  {
    if |t| > 0 {
      WhereAbove(t[1..], keep, id, at);
    }
  }

  /** The match stage, one row at a time. */
  lemma WhereCons<T>(t: Table<T>, keep: T -> bool)
    requires |t| > 0
    ensures keep(t[0].doc) ==> Where(t, keep) == [t[0]] + Where(t[1..], keep)
    ensures !keep(t[0].doc) ==> Where(t, keep) == Where(t[1..], keep)
  {
  }

  /** `$count` after a `$match`: how many rows satisfy `keep`. */
  function Count<T>(t: Table<T>, keep: T -> bool): (n: nat)
    ensures n <= |t|
    ensures n == 0 <==> forall k :: 0 <= k < |t| ==> !keep(t[k].doc)
  {
    if |t| == 0 then 0
    else
      assert forall k :: 0 <= k < |t| - 1 ==> t[1..][k] == t[k + 1];
      (if keep(t[0].doc) then 1 else 0) + Count(t[1..], keep)
  }

  /** Counting the matches is taking the length of the match stage. */
  lemma {:induction false} CountWhere<T>(t: Table<T>, keep: T -> bool)
    ensures Count(t, keep) == |Where(t, keep)|
  {
    if |t| > 0 {
      CountWhere(t[1..], keep);
    }
  }

  /** The elements of `s` in the opposite order. */
  function Reverse<T>(s: seq<T>): (r: seq<T>)
    ensures |r| == |s|
    ensures forall k :: 0 <= k < |s| ==> r[k] == s[|s| - 1 - k]
  {
    if |s| == 0 then [] else Reverse(s[1..]) + [s[0]]
  }

  /** `$sort: { createdAt: -1 }` on a table stored oldest first. */
  function NewestFirst<T>(t: Table<T>): (r: Table<T>)
  {
    Reverse(t)
  }

  /** `$skip: skip` followed by `$limit: limit`. */
  function Page<T>(s: seq<T>, skip: nat, limit: nat): (r: seq<T>)
    ensures |r| <= limit
    ensures |r| == if skip >= |s| then 0 else if |s| - skip < limit then |s| - skip else limit
    ensures forall k :: 0 <= k < |r| ==> r[k] == s[skip + k]
  {
    if skip >= |s| then []
    else if |s| - skip < limit then s[skip..]
    else s[skip..skip + limit]
  }

  /**
   * The `$skip` of a page: (page - 1) * limit. With a positive limit it is
   * negative exactly when the page is below 1.
   */
  function Skip(page: int, limit: int): (s: int)
    ensures limit > 0 ==> (s >= 0 <==> page >= 1)
  {
    assert limit > 0 && page < 1 ==> (1 - page) * limit > 0;
    (page - 1) * limit
  }

  lemma InsertWellFormed<T>(t: Table<T>, clock: nat, d: T)
    requires WellFormed(t, clock)
    ensures WellFormed(Insert(t, clock, d), clock + 1)
  {
  }

  lemma RemoveWellFormed<T>(t: Table<T>, clock: nat, k: nat)
    requires k < |t| && WellFormed(t, clock)
    ensures WellFormed(RemoveAt(t, k), clock)
  {
    var r := RemoveAt(t, k);
    forall i, j | 0 <= i < j < |r|
      ensures r[i].id < r[j].id && r[i].createdAt < r[j].createdAt
    {
      var i' := if i < k then i else i + 1;
      var j' := if j < k then j else j + 1;
      assert r[i] == t[i'] && r[j] == t[j'];
    }
  }

  lemma RemoveDistinct<T>(t: Table<T>, k: nat)
    requires k < |t| && DistinctDocs(t)
    ensures DistinctDocs(RemoveAt(t, k))
  {
    var r := RemoveAt(t, k);
    forall i, j | 0 <= i < j < |r|
      ensures r[i].doc != r[j].doc
    {
      var i' := if i < k then i else i + 1;
      var j' := if j < k then j else j + 1;
      assert r[i] == t[i'] && r[j] == t[j'];
    }
  }

  /** Replacing a document in place keeps its id and timestamp, hence the order. */
  lemma ReplaceWellFormed<T>(t: Table<T>, clock: nat, k: nat, d: T)
    requires k < |t| && WellFormed(t, clock)
    ensures WellFormed(t[k := t[k].(doc := d)], clock)
  {
  }

  /**
   * On a chronological table, NewestFirst is exactly the order of
   * `$sort: { createdAt: -1 }`: creation times strictly decrease, and the rows are those of the table.
   */
  lemma {:induction false} NewestFirstSorted<T>(t: Table<T>)
    requires Chronological(t)
    ensures forall i, j :: 0 <= i < j < |NewestFirst(t)| ==> NewestFirst(t)[i].createdAt > NewestFirst(t)[j].createdAt
    ensures multiset(NewestFirst(t)) == multiset(t)
  {
    var r := NewestFirst(t);
    forall i, j | 0 <= i < j < |r|
      ensures r[i].createdAt > r[j].createdAt
    {
      assert r[i] == t[|t| - 1 - i] && r[j] == t[|t| - 1 - j];
    }
    ReverseMultiset(t);
  }

  /**
   * A match stage followed by the newest-first sort: the rows it lists are
   * rows of the table the filter keeps, every such row is listed, and
   * creation times strictly decrease.
   */
  lemma NewestFirstWhere<T>(t: Table<T>, keep: T -> bool)
    requires Chronological(t)
    ensures forall k :: 0 <= k < |NewestFirst(Where(t, keep))| ==>
      NewestFirst(Where(t, keep))[k] in t && keep(NewestFirst(Where(t, keep))[k].doc)
    ensures forall k :: 0 <= k < |t| && keep(t[k].doc) ==> t[k] in NewestFirst(Where(t, keep))
    ensures forall i, j :: 0 <= i < j < |NewestFirst(Where(t, keep))| ==>
      NewestFirst(Where(t, keep))[i].createdAt > NewestFirst(Where(t, keep))[j].createdAt
  {
    WhereChronological(t, keep);
    NewestFirstSorted(Where(t, keep));
    ReverseRows(Where(t, keep));
  }

  /** Reversing keeps the rows: each row of the reversal is a row of the original, and conversely. */
  lemma ReverseRows<T>(s: seq<T>)
    ensures forall k :: 0 <= k < |Reverse(s)| ==> Reverse(s)[k] in s
    ensures forall x :: x in s ==> x in Reverse(s)
  {
    var r := Reverse(s);
    forall k | 0 <= k < |r| ensures r[k] in s {
      assert r[k] == s[|s| - 1 - k];
    }
    forall x | x in s ensures x in r {
      var i :| 0 <= i < |s| && s[i] == x;
      assert r[|s| - 1 - i] == x;
    }
  }

  lemma {:induction false} ReverseMultiset<T>(s: seq<T>)
    ensures multiset(Reverse(s)) == multiset(s)
  {
    if |s| > 0 {
      ReverseMultiset(s[1..]);
      assert s == [s[0]] + s[1..];
    }
  }

  /** Some row holds exactly this document. */
  ghost predicate HasDoc<T>(t: Table<T>, d: T)
  {
    exists k :: 0 <= k < |t| && t[k].doc == d
  }

  /**
   * The toggle pattern of the handlers: `findOne` the document; if a row is
   * found `deleteOne` it, otherwise `create` it. The flag says whether a row
   * was found (and deleted).
   */
  function Toggle<T(==)>(t: Table<T>, clock: nat, d: T): (r: (Table<T>, bool))
    ensures r.1 <==> HasDoc(t, d)
    ensures r.1 ==> |r.0| + 1 == |t|
    ensures !r.1 ==> r.0 == Insert(t, clock, d)
  {
    match FindDoc(t, d)
    case Some(k) => (RemoveAt(t, k), true)
    case None => (Insert(t, clock, d), false)
  }

  /** The clock after a toggle: it advances only when a row was created. */
  function ClockAfterToggle(clock: nat, existed: bool): nat
  {
    if existed then clock else clock + 1
  }

  /** A toggle flips whether the document is stored, and keeps the table well formed. */
  lemma ToggleFlips<T>(t: Table<T>, clock: nat, d: T)
    requires WellFormed(t, clock) && DistinctDocs(t)
    ensures HasDoc(Toggle(t, clock, d).0, d) <==> !HasDoc(t, d)
    ensures WellFormed(Toggle(t, clock, d).0, ClockAfterToggle(clock, Toggle(t, clock, d).1))
    ensures DistinctDocs(Toggle(t, clock, d).0)
  {
    var (r, existed) := Toggle(t, clock, d);
    match FindDoc(t, d)
    case Some(k) =>
      RemoveWellFormed(t, clock, k);
      RemoveDistinct(t, k);
      forall i | 0 <= i < |r|
        ensures r[i].doc != d
      {
        if i < k { assert r[i] == t[i]; } else { assert r[i] == t[i + 1]; }
      }
    case None =>
      assert r[|t|].doc == d;
      forall i, j | 0 <= i < j < |r|
        ensures r[i].doc != r[j].doc
      {
        if j == |t| { assert r[i] == t[i]; }
      }
  }

  /** A toggle leaves every row holding another document where it was, up to the removed position. */
  lemma ToggleKeepsOthers<T>(t: Table<T>, clock: nat, d: T, row: Row<T>)
    requires row.doc != d
    ensures row in Toggle(t, clock, d).0 <==> row in t
  {
    match FindDoc(t, d)
    case Some(k) =>
      var r := RemoveAt(t, k);
      if row in t {
        var i :| 0 <= i < |t| && t[i] == row;
        assert i != k;
        if i < k { assert r[i] == row; } else { assert r[i - 1] == row; }
      }
      if row in r {
        var i :| 0 <= i < |r| && r[i] == row;
        if i < k { assert t[i] == row; } else { assert t[i + 1] == row; }
      }
    case None =>
  }

  /**
   * Two toggles of the same document: the second undoes the first. When the
   * document was absent the table is restored exactly; when it was present it
   * is stored again, as a new row at the end.
   */
  lemma ToggleTwice<T>(t: Table<T>, clock: nat, d: T)
    requires WellFormed(t, clock) && DistinctDocs(t)
    ensures var (t1, b1) := Toggle(t, clock, d);
            var (t2, b2) := Toggle(t1, ClockAfterToggle(clock, b1), d);
            && b2 == !b1
            && (!b1 ==> t2 == t)
            && (b1 ==> t2 == Insert(t1, clock, d) && |t2| == |t|)
  {
    var (t1, b1) := Toggle(t, clock, d);
    ToggleFlips(t, clock, d);
    if !b1 {
      var k := |t|;
      assert t1[k].doc == d;
      assert FindDoc(t1, d) == Some(k);
      assert RemoveAt(t1, k) == t;
    }
  }
}
