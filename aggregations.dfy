/** The four read-only analytical queries, each an aggregation pipeline
    (group, match, lookup, project, sort) written as a pure function over
    the two collections. Being functions, none of them can change either
    collection. */
module Aggregations {
  import opened Values
  import opened Seqs

  // ---------------------------------------------------------------------
  // `$group`: keys, members and accumulators
  // ---------------------------------------------------------------------

  /** Membership in the group whose key field `key` reads `v`. */
  function InGroup(key: string, v: Value): Record -> bool {
    d => Field(d, key) == v
  }

  /** The documents of the group keyed `v`, in collection order. */
  function Members(docs: seq<Record>, key: string, v: Value): (r: seq<Record>)
    ensures forall d :: d in r <==> d in docs && Field(d, key) == v
  {
    Filter(docs, InGroup(key, v))
  }

  /** `{'$sum': 1}`: the size of the group keyed `v`. */
  function Count(docs: seq<Record>, key: string, v: Value): (n: nat)
    ensures n <= |docs|
    ensures n > 0 <==> exists i | 0 <= i < |docs| :: Field(docs[i], key) == v
  {
    var m := Members(docs, key, v);
    assert |m| > 0 ==> m[0] in m;
    assert forall i | 0 <= i < |docs| && Field(docs[i], key) == v :: docs[i] in m;
    |m|
  }

  /** One more document adds one to its own group's size only. */
  lemma CountSnoc(docs: seq<Record>, d: Record, key: string, v: Value)
    ensures Count(docs + [d], key, v) == Count(docs, key, v) + (if Field(d, key) == v then 1 else 0)
  {
    FilterSnoc(docs, d, InGroup(key, v));
  }

  /** The distinct values of field `key` over `docs`, one per group, in
      order of first appearance. */
  function GroupKeys(docs: seq<Record>, key: string): (ks: seq<Value>)
    ensures Distinct(ks)
    ensures forall v :: v in ks <==> exists i | 0 <= i < |docs| :: Field(docs[i], key) == v
  {
    if docs == [] then []
    else
      var p := docs[..|docs| - 1];
      var ks := GroupKeys(p, key);
      var k := Field(docs[|docs| - 1], key);
      assert forall i | 0 <= i < |p| :: p[i] == docs[i];
      if k in ks then ks else ks + [k]
  }

  /** A value is a group key exactly when its group is not empty. */
  lemma GroupKeyIffCount(docs: seq<Record>, key: string, v: Value)
    ensures v in GroupKeys(docs, key) <==> Count(docs, key, v) > 0
  {
  }

  /** How `$sum` and `$avg` read `amount`: only numbers take part. */
  predicate HasNumericAmount(d: Record) {
    Field(d, "amount").Num? || Field(d, "amount").Float?
  }

  /** A numeric amount as a number; anything else adds nothing. */
  function AmountOf(d: Record): real {
    match Field(d, "amount")
    case Num(n) => n as real
    case Float(x, _) => x
    case _ => 0.0
  }

  /** `{'$sum': '$amount'}` over a group. */
  function SumAmounts(docs: seq<Record>): (s: real)
    ensures (forall i | 0 <= i < |docs| :: AmountOf(docs[i]) >= 0.0) ==> s >= 0.0
  {
    if docs == [] then 0.0 else AmountOf(docs[0]) + SumAmounts(docs[1..])
  }

  /** `{'$avg': '$amount'}` over a group: the mean of its numeric amounts,
      null when it has none. */
  function AvgAmount(docs: seq<Record>): (a: Option<real>)
    ensures a.None? <==> forall i | 0 <= i < |docs| :: !HasNumericAmount(docs[i])
  {
    var n := |Filter(docs, HasNumericAmount)|;
    NonEmptyFilter(docs, HasNumericAmount);
    if n == 0 then None else Some(SumAmounts(docs) / n as real)
  }

  lemma NonEmptyFilter(docs: seq<Record>, p: Record -> bool)
    ensures |Filter(docs, p)| > 0 <==> exists i | 0 <= i < |docs| :: p(docs[i])
  {
    var r := Filter(docs, p);
    if |r| > 0 {
      assert r[0] in r;
    }
    if i :| 0 <= i < |docs| && p(docs[i]) {
      assert docs[i] in r;
    }
  }

  // ---------------------------------------------------------------------
  // `$lookup` + `$arrayElemAt`: the owning user's fields
  // ---------------------------------------------------------------------

  /** `{'$arrayElemAt': ['$user_info.<f>', 0]}` after a `$lookup` of the
      users whose `_id` equals `k`: the field `f` of the first such user
      that has it; absent when there is none. */
  function JoinedField(users: seq<Record>, k: Value, f: string): (r: Option<Value>)
    ensures r.None? <==> forall i | 0 <= i < |users| :: IdOf(users[i]) == k ==> f !in users[i]
    ensures r.Some? ==> exists i | 0 <= i < |users| :: IdOf(users[i]) == k && f in users[i] && r.value == users[i][f]
  {
    if users == [] then None
    else if IdOf(users[0]) == k && f in users[0] then Some(users[0][f])
    else
      var r := JoinedField(users[1..], k, f);
      assert forall i | 1 <= i < |users| :: users[i] == users[1..][i - 1];
      r
  }

  /** With unique user `_id`s, the joined field is the owner's own field,
      and absent exactly when the owner lacks it. */
  lemma {:induction false} JoinedFieldOfOwner(users: seq<Record>, i: nat, f: string)
    requires UniqueIds(users)
    requires i < |users|
    ensures JoinedField(users, IdOf(users[i]), f) == (if f in users[i] then Some(users[i][f]) else None)
  {
    var k := IdOf(users[i]);
    if i > 0 {
      assert IdOf(users[0]) != k;
      assert UniqueIds(users[1..]) by {
        forall a, b | 0 <= a < b < |users[1..]| ensures IdOf(users[1..][a]) != IdOf(users[1..][b]) {
          assert users[1..][a] == users[a + 1] && users[1..][b] == users[b + 1];
        }
      }
      assert users[1..][i - 1] == users[i];
      JoinedFieldOfOwner(users[1..], i - 1, f);
    }
  }

  /** When no user has `_id` `k`, the joined names are absent. */
  lemma JoinedFieldOfNobody(users: seq<Record>, k: Value, f: string)
    requires forall i | 0 <= i < |users| :: IdOf(users[i]) != k
    ensures JoinedField(users, k, f) == None
  {
  }

  // ---------------------------------------------------------------------
  // Query 1: total spent per user, largest first
  // ---------------------------------------------------------------------

  datatype SpentRow = SpentRow(userId: Value, firstName: Option<Value>, lastName: Option<Value>, totalSpent: real)

  /** The row the pipeline emits for the group of `user_id` `k`. */
  function SpentRowFor(txs: seq<Record>, users: seq<Record>, k: Value): SpentRow {
    SpentRow(k, JoinedField(users, k, "first_name"), JoinedField(users, k, "last_name"),
             SumAmounts(Members(txs, "user_id", k)))
  }

  /** A spent row is for its key; a name is absent exactly when no user
      with that `_id` has it; and the total is not negative when none of
      the user's amounts is. */
  lemma SpentRowMeaning(txs: seq<Record>, users: seq<Record>, k: Value)
    ensures var r := SpentRowFor(txs, users, k);
      && r.userId == k
      && (r.firstName.None? <==> forall i | 0 <= i < |users| :: IdOf(users[i]) == k ==> "first_name" !in users[i])
      && (r.lastName.None? <==> forall i | 0 <= i < |users| :: IdOf(users[i]) == k ==> "last_name" !in users[i])
      && ((forall i | 0 <= i < |txs| :: Field(txs[i], "user_id") == k ==> AmountOf(txs[i]) >= 0.0) ==> r.totalSpent >= 0.0)
  {
    var m := Members(txs, "user_id", k);
    assert forall i | 0 <= i < |m| :: m[i] in m;
  }

  predicate SortedByTotal(rows: seq<SpentRow>) {
    forall i, j | 0 <= i < j < |rows| :: rows[i].totalSpent >= rows[j].totalSpent
  }

  predicate DistinctSpentIds(rows: seq<SpentRow>) {
    forall i, j | 0 <= i < j < |rows| :: rows[i].userId != rows[j].userId
  }

  /** Places `row` before the first row whose total is not larger. */
  function InsertByTotal(row: SpentRow, rows: seq<SpentRow>): (r: seq<SpentRow>)
    ensures multiset(r) == multiset(rows) + multiset{row}
  {
    if rows == [] || row.totalSpent >= rows[0].totalSpent then [row] + rows
    else
      assert rows == [rows[0]] + rows[1..];
      [rows[0]] + InsertByTotal(row, rows[1..])
  }

  /** Inserting into rows in non-increasing order of total keeps that order. */
  lemma {:induction false} InsertKeepsSorted(row: SpentRow, rows: seq<SpentRow>)
    requires SortedByTotal(rows)
    ensures SortedByTotal(InsertByTotal(row, rows))
  {
    if rows != [] && row.totalSpent < rows[0].totalSpent {
      var rest := InsertByTotal(row, rows[1..]);
      InsertKeepsSorted(row, rows[1..]);
      forall x | x in rest ensures x.totalSpent <= rows[0].totalSpent {
        assert x in multiset(rest);
        assert x == row || x in rows[1..];
      }
      var r := [rows[0]] + rest;
      assert forall j | 0 < j < |r| :: r[j] == rest[j - 1] && r[j] in rest;
    } else {
      assert forall x | x in rows :: x.totalSpent <= row.totalSpent;
    }
  }

  /** Inserting a row whose user has no row yet keeps one row per user. */
  lemma {:induction false} InsertKeepsDistinctIds(row: SpentRow, rows: seq<SpentRow>)
    requires DistinctSpentIds(rows)
    requires forall x | x in rows :: x.userId != row.userId
    ensures DistinctSpentIds(InsertByTotal(row, rows))
  {
    if rows != [] && row.totalSpent < rows[0].totalSpent {
      var rest := InsertByTotal(row, rows[1..]);
      InsertKeepsDistinctIds(row, rows[1..]);
      forall x | x in rest ensures x.userId != rows[0].userId {
        assert x in multiset(rest);
        assert x == row || x in rows[1..];
      }
      assert InsertByTotal(row, rows) == [rows[0]] + rest;
    }
  }

  /** `{'$sort': {'total_spent': -1}}`, as an insertion sort. */
  function SortByTotal(rows: seq<SpentRow>): (r: seq<SpentRow>)
    ensures multiset(r) == multiset(rows)
  {
    if rows == [] then []
    else
      assert rows == [rows[0]] + rows[1..];
      InsertByTotal(rows[0], SortByTotal(rows[1..]))
  }

  /** The sort leaves the rows in non-increasing order of total. */
  lemma {:induction false} SortIsSorted(rows: seq<SpentRow>)
    ensures SortedByTotal(SortByTotal(rows))
  {
    if rows != [] {
      SortIsSorted(rows[1..]);
      InsertKeepsSorted(rows[0], SortByTotal(rows[1..]));
    }
  }

  /** Sorting rows with one row per user keeps one row per user. */
  lemma {:induction false} SortKeepsDistinctIds(rows: seq<SpentRow>)
    requires DistinctSpentIds(rows)
    ensures DistinctSpentIds(SortByTotal(rows))
  {
    if rows != [] {
      var rest := SortByTotal(rows[1..]);
      SortKeepsDistinctIds(rows[1..]);
      forall x | x in rest ensures x.userId != rows[0].userId {
        assert x in multiset(rows[1..]);
      }
      InsertKeepsDistinctIds(rows[0], rest);
    }
  }

  /** Some row belongs to the user `v`. */
  predicate HasSpentRow(rows: seq<SpentRow>, v: Value) {
    exists i | 0 <= i < |rows| :: rows[i].userId == v
  }

  /** One row per group of `user_id`, before the sort. */
  function SpentRows(txs: seq<Record>, users: seq<Record>): (rows: seq<SpentRow>)
    ensures DistinctSpentIds(rows)
    ensures forall x | x in rows :: x == SpentRowFor(txs, users, x.userId)
    ensures forall v :: HasSpentRow(rows, v) <==> Count(txs, "user_id", v) > 0
  {
    var ks := GroupKeys(txs, "user_id");
    var rows := seq(|ks|, i requires 0 <= i < |ks| => SpentRowFor(txs, users, ks[i]));
    assert forall v :: v in ks <==> Count(txs, "user_id", v) > 0 by {
      forall v ensures v in ks <==> Count(txs, "user_id", v) > 0 {
        GroupKeyIffCount(txs, "user_id", v);
      }
    }
    assert forall v | v in ks :: exists i | 0 <= i < |rows| :: rows[i].userId == v by {
      forall v | v in ks ensures exists i | 0 <= i < |rows| :: rows[i].userId == v {
        var i :| 0 <= i < |ks| && ks[i] == v;
        assert rows[i].userId == v;
      }
    }
    rows
  }

  /** `total_spent_by_user`: group transactions by `user_id` summing
      `amount`, join the user's names, sort by total, largest first. */
  function TotalSpentByUser(txs: seq<Record>, users: seq<Record>): (r: seq<SpentRow>)
    ensures SortedByTotal(r) && DistinctSpentIds(r)
    ensures multiset(r) == multiset(SpentRows(txs, users))
  {
    var rows := SpentRows(txs, users);
    SortIsSorted(rows);
    SortKeepsDistinctIds(rows);
    SortByTotal(rows)
  }

  /** When no amount is a negative number, no user's total is negative. */
  lemma TotalsNonNegative(txs: seq<Record>, users: seq<Record>)
    requires forall i | 0 <= i < |txs| :: AmountOf(txs[i]) >= 0.0
    ensures forall i | 0 <= i < |TotalSpentByUser(txs, users)| :: TotalSpentByUser(txs, users)[i].totalSpent >= 0.0
  {
    var rows := SpentRows(txs, users);
    var r := TotalSpentByUser(txs, users);
    forall i | 0 <= i < |r| ensures r[i].totalSpent >= 0.0 {
      assert r[i] in multiset(rows);
      assert r[i] == SpentRowFor(txs, users, r[i].userId);
      SpentRowMeaning(txs, users, r[i].userId);
    }
  }

  /** A sorted collection holds the same rows, so the same users. */
  lemma SortKeepsRows(rows: seq<SpentRow>)
    ensures forall x :: x in SortByTotal(rows) <==> x in rows
    ensures forall v :: HasSpentRow(SortByTotal(rows), v) <==> HasSpentRow(rows, v)
  {
    var r := SortByTotal(rows);
    forall x ensures x in r <==> x in rows {
      assert x in r <==> x in multiset(r);
      assert x in rows <==> x in multiset(rows);
    }
    forall v ensures HasSpentRow(r, v) <==> HasSpentRow(rows, v) {
      if i :| 0 <= i < |rows| && rows[i].userId == v {
        assert rows[i] in r;
      }
      if i :| 0 <= i < |r| && r[i].userId == v {
        assert r[i] in rows;
      }
    }
  }

  /** A row exists exactly for each `user_id` with transactions, and holds
      that user's total and joined names. */
  lemma TotalSpentByUserRows(txs: seq<Record>, users: seq<Record>)
    ensures var r := TotalSpentByUser(txs, users);
      && (forall i | 0 <= i < |r| :: r[i] == SpentRowFor(txs, users, r[i].userId))
      && (forall v :: HasSpentRow(r, v) <==> Count(txs, "user_id", v) > 0)
  {
    var rows := SpentRows(txs, users);
    var r := SortByTotal(rows);
    SortKeepsRows(rows);
    assert forall i | 0 <= i < |r| :: r[i] in rows;
  }

  // ---------------------------------------------------------------------
  // Query 2: users with three or more transactions
  // ---------------------------------------------------------------------

  /** The `$match` threshold on `transaction_count`. */
  const MinTransactions := 3

  datatype CountRow = CountRow(userId: Value, firstName: Option<Value>, lastName: Option<Value>, transactionCount: nat)

  function CountRowFor(txs: seq<Record>, users: seq<Record>, k: Value): CountRow {
    CountRow(k, JoinedField(users, k, "first_name"), JoinedField(users, k, "last_name"),
             Count(txs, "user_id", k))
  }

  /** A count row is for its key, counts the transactions naming it, and
      has a name exactly when some user with that `_id` has it. */
  lemma CountRowMeaning(txs: seq<Record>, users: seq<Record>, k: Value)
    ensures var r := CountRowFor(txs, users, k);
      && r.userId == k
      && r.transactionCount <= |txs|
      && (r.transactionCount > 0 <==> exists i | 0 <= i < |txs| :: Field(txs[i], "user_id") == k)
      && (r.firstName.None? <==> forall i | 0 <= i < |users| :: IdOf(users[i]) == k ==> "first_name" !in users[i])
      && (r.lastName.None? <==> forall i | 0 <= i < |users| :: IdOf(users[i]) == k ==> "last_name" !in users[i])
  {
  }

  /** `users_with_multiple_transactions`: group by `user_id` counting, keep
      groups of at least three, join the user's names. */
  function UsersWithMultipleTransactions(txs: seq<Record>, users: seq<Record>): (r: seq<CountRow>)
    ensures MinTransactions * |r| <= |txs|
    ensures forall i | 0 <= i < |r| :: r[i].transactionCount >= MinTransactions
  {
    var ks := HeavyKeys(txs);
    HeavyKeysBound(txs);
    seq(|ks|, i requires 0 <= i < |ks| => CountRowFor(txs, users, ks[i]))
  }

  /** The `user_id` groups that pass the `$match` on `transaction_count`. */
  function HeavyKeys(txs: seq<Record>): seq<Value> {
    Filter(GroupKeys(txs, "user_id"), k => Count(txs, "user_id", k) >= MinTransactions)
  }

  /** Every group kept holds three or more transactions of its own, so
      there are at most a third as many groups kept as transactions. */
  lemma HeavyKeysBound(txs: seq<Record>)
    ensures MinTransactions * |HeavyKeys(txs)| <= |txs|
    ensures forall i | 0 <= i < |HeavyKeys(txs)| :: Count(txs, "user_id", HeavyKeys(txs)[i]) >= MinTransactions
  {
    var gs := GroupKeys(txs, "user_id");
    var p := k => Count(txs, "user_id", k) >= MinTransactions;
    var ks := Filter(gs, p);
    assert ks == HeavyKeys(txs);
    assert forall i | 0 <= i < |ks| :: ks[i] in ks;
    HeavyGroupsCount(txs, "user_id", gs, p);
    GroupsCoverDocuments(txs, "user_id");
  }

  /** Keeping only groups of at least three documents keeps at most the
      documents of all groups, and at least three per group kept. */
  lemma {:induction false} HeavyGroupsCount(docs: seq<Record>, key: string, ks: seq<Value>, p: Value -> bool)
    requires forall k | k in ks && p(k) :: Count(docs, key, k) >= MinTransactions
    ensures MinTransactions * |Filter(ks, p)| <= CountSum(docs, key, Filter(ks, p)) <= CountSum(docs, key, ks)
  {
    if ks != [] {
      var q := ks[..|ks| - 1];
      var k := ks[|ks| - 1];
      assert ks == q + [k];
      assert forall x | x in q :: x in ks;
      HeavyGroupsCount(docs, key, q, p);
      FilterSnoc(q, k, p);
      var fq := Filter(q, p);
      assert CountSum(docs, key, ks) == CountSum(docs, key, q) + Count(docs, key, k);
      if p(k) {
        var f := fq + [k];
        assert Filter(ks, p) == f;
        assert f[..|f| - 1] == fq && f[|f| - 1] == k;
        assert CountSum(docs, key, f) == CountSum(docs, key, fq) + Count(docs, key, k);
      } else {
        assert Filter(ks, p) == fq;
      }
    }
  }

  /** A `user_id` has a row exactly when it has three or more transactions;
      the row carries that number and the joined names, and no `user_id`
      has two rows. */
  lemma UsersWithMultipleTransactionsRows(txs: seq<Record>, users: seq<Record>)
    ensures var r := UsersWithMultipleTransactions(txs, users);
      && (forall i | 0 <= i < |r| :: r[i] == CountRowFor(txs, users, r[i].userId) && r[i].transactionCount >= MinTransactions)
      && (forall i, j | 0 <= i < j < |r| :: r[i].userId != r[j].userId)
      && (forall v :: (exists i | 0 <= i < |r| :: r[i].userId == v) <==> Count(txs, "user_id", v) >= MinTransactions)
  {
    var gs := GroupKeys(txs, "user_id");
    var p := k => Count(txs, "user_id", k) >= MinTransactions;
    var ks := Filter(gs, p);
    assert ks == HeavyKeys(txs);
    var r := UsersWithMultipleTransactions(txs, users);
    assert |r| == |ks| && forall i | 0 <= i < |r| :: r[i].userId == ks[i];
    FilterDistinctBy(gs, p, (k: Value) => k);
    forall v ensures (exists i | 0 <= i < |r| :: r[i].userId == v) <==> Count(txs, "user_id", v) >= MinTransactions {
      GroupKeyIffCount(txs, "user_id", v);
      if Count(txs, "user_id", v) >= MinTransactions {
        assert v in ks;
        var i :| 0 <= i < |ks| && ks[i] == v;
        assert r[i].userId == v;
      }
    }
  }

  // ---------------------------------------------------------------------
  // Query 3: transaction status patterns
  // ---------------------------------------------------------------------

  datatype StatusRow = StatusRow(status: Value, count: nat, avgAmount: Option<real>)

  /** The row the pipeline emits for the group of status `k`. */
  function StatusRowFor(txs: seq<Record>, k: Value): StatusRow {
    StatusRow(k, Count(txs, "status", k), AvgAmount(Members(txs, "status", k)))
  }

  /** A status row counts the transactions holding its status, is
      non-empty exactly when one does, and has a null mean exactly when none
      of them has a numeric amount. */
  lemma StatusRowMeaning(txs: seq<Record>, k: Value)
    ensures var r := StatusRowFor(txs, k);
      && r.status == k
      && r.count <= |txs|
      && (r.count > 0 <==> exists i | 0 <= i < |txs| :: Field(txs[i], "status") == k)
      && (r.avgAmount.None? <==> forall i | 0 <= i < |txs| :: Field(txs[i], "status") == k ==> !HasNumericAmount(txs[i]))
  {
    var m := Members(txs, "status", k);
    assert forall i | 0 <= i < |m| :: m[i] in m;
    assert forall i | 0 <= i < |txs| && Field(txs[i], "status") == k :: txs[i] in m;
  }

  /** Some row is for the status `v`. */
  predicate HasStatusRow(rows: seq<StatusRow>, v: Value) {
    exists i | 0 <= i < |rows| :: rows[i].status == v
  }

  /** `transaction_status_patterns`: group by `status` with a count and
      the mean amount; one row per distinct status. */
  function TransactionStatusPatterns(txs: seq<Record>): (rows: seq<StatusRow>)
    ensures forall i | 0 <= i < |rows| :: rows[i] == StatusRowFor(txs, rows[i].status)
    ensures forall i, j | 0 <= i < j < |rows| :: rows[i].status != rows[j].status
    ensures forall v :: HasStatusRow(rows, v) <==> Count(txs, "status", v) > 0
  {
    var ks := GroupKeys(txs, "status");
    var rows := seq(|ks|, i requires 0 <= i < |ks| => StatusRowFor(txs, ks[i]));
    assert forall v :: v in ks <==> Count(txs, "status", v) > 0 by {
      forall v ensures v in ks <==> Count(txs, "status", v) > 0 {
        GroupKeyIffCount(txs, "status", v);
      }
    }
    assert forall v | v in ks :: HasStatusRow(rows, v) by {
      forall v | v in ks ensures HasStatusRow(rows, v) {
        var i :| 0 <= i < |ks| && ks[i] == v;
        assert rows[i].status == v;
      }
    }
    rows
  }

  /** The sum of the `count` column. */
  function TotalCount(rows: seq<StatusRow>): nat {
    if rows == [] then 0 else TotalCount(rows[..|rows| - 1]) + rows[|rows| - 1].count
  }

  /** The sizes of the groups keyed by `ks`, added up. */
  function CountSum(docs: seq<Record>, key: string, ks: seq<Value>): nat {
    if ks == [] then 0 else CountSum(docs, key, ks[..|ks| - 1]) + Count(docs, key, ks[|ks| - 1])
  }

  /** One more document adds one to the group sizes exactly when its key is
      among `ks`. */
  lemma {:induction false} CountSumSnoc(docs: seq<Record>, d: Record, key: string, ks: seq<Value>)
    requires Distinct(ks)
    ensures CountSum(docs + [d], key, ks) == CountSum(docs, key, ks) + (if Field(d, key) in ks then 1 else 0)
  {
    if ks != [] {
      var q := ks[..|ks| - 1];
      var k := ks[|ks| - 1];
      assert ks == q + [k];
      assert Distinct(q);
      assert k !in q;
      CountSumSnoc(docs, d, key, q);
      CountSnoc(docs, d, key, k);
    }
  }

  /** Adding up the sizes of all groups counts every document once. */
  lemma {:induction false} GroupsCoverDocuments(docs: seq<Record>, key: string)
    ensures CountSum(docs, key, GroupKeys(docs, key)) == |docs|
  {
    if docs != [] {
      var p := docs[..|docs| - 1];
      var d := docs[|docs| - 1];
      assert docs == p + [d];
      var ks := GroupKeys(p, key);
      var k := Field(d, key);
      GroupsCoverDocuments(p, key);
      CountSumSnoc(p, d, key, ks);
      if k !in ks {
        assert GroupKeys(docs, key) == ks + [k];
        assert (ks + [k])[..|ks|] == ks;
        GroupKeyIffCount(p, key, k);
        CountSnoc(p, d, key, k);
      }
    }
  }

  /** The rows built for keys `ks` carry exactly those groups' sizes. */
  lemma {:induction false} TotalCountOfRows(txs: seq<Record>, ks: seq<Value>)
    ensures TotalCount(seq(|ks|, i requires 0 <= i < |ks| => StatusRowFor(txs, ks[i]))) == CountSum(txs, "status", ks)
  {
    if ks != [] {
      var rows := seq(|ks|, i requires 0 <= i < |ks| => StatusRowFor(txs, ks[i]));
      var q := ks[..|ks| - 1];
      TotalCountOfRows(txs, q);
      assert rows[..|rows| - 1] == seq(|q|, i requires 0 <= i < |q| => StatusRowFor(txs, q[i]));
    }
  }

  /** The `count` column adds up to the number of transactions. */
  lemma StatusCountsCoverTransactions(txs: seq<Record>)
    ensures TotalCount(TransactionStatusPatterns(txs)) == |txs|
  {
    var ks := GroupKeys(txs, "status");
    TotalCountOfRows(txs, ks);
    GroupsCoverDocuments(txs, "status");
  }

  // ---------------------------------------------------------------------
  // Query 4: users without transactions
  // ---------------------------------------------------------------------

  datatype NameRow = NameRow(id: Value, firstName: Option<Value>, lastName: Option<Value>)

  function OptField(r: Record, f: string): Option<Value> {
    if f in r then Some(r[f]) else None
  }

  /** `{'$project': {'first_name': 1, 'last_name': 1}}`: `_id` is kept by
      default, a missing name stays missing. */
  function ProjectNames(u: Record): (r: NameRow)
    ensures r.id == IdOf(u)
    ensures r.firstName.Some? <==> "first_name" in u
    ensures r.firstName.Some? ==> r.firstName.value == u["first_name"]
    ensures r.lastName.Some? <==> "last_name" in u
    ensures r.lastName.Some? ==> r.lastName.value == u["last_name"]
  {
    NameRow(IdOf(u), OptField(u, "first_name"), OptField(u, "last_name"))
  }

  /** The `$lookup` of transactions by `user_id` finds something. */
  predicate HasTransactions(txs: seq<Record>, id: Value) {
    exists j | 0 <= j < |txs| :: Field(txs[j], "user_id") == id
  }

  predicate WithoutTransactions(txs: seq<Record>, u: Record) {
    !HasTransactions(txs, IdOf(u))
  }

  /** The users whose `$lookup` of transactions comes back empty. */
  function Unreferenced(users: seq<Record>, txs: seq<Record>): (us: seq<Record>)
    ensures forall u :: u in us <==> u in users && WithoutTransactions(txs, u)
  {
    Filter(users, u => WithoutTransactions(txs, u))
  }

  /** `users_without_transactions`: look up each user's transactions, keep
      the users whose list is empty, project their names. */
  function UsersWithoutTransactions(users: seq<Record>, txs: seq<Record>): (r: seq<NameRow>)
    ensures |r| <= |users|
    ensures forall i | 0 <= i < |r| :: !HasTransactions(txs, r[i].id)
  {
    var us := Unreferenced(users, txs);
    assert forall i | 0 <= i < |us| :: us[i] in us;
    seq(|us|, i requires 0 <= i < |us| => ProjectNames(us[i]))
  }

  /** `row` is the projection of some user that no transaction references. */
  predicate ProjectsUnreferencedUser(users: seq<Record>, txs: seq<Record>, row: NameRow) {
    exists i | 0 <= i < |users| :: row == ProjectNames(users[i]) && !HasTransactions(txs, IdOf(users[i]))
  }

  /** Each row is the projection of a user without transactions, and a
      user has a row exactly when no transaction references it. */
  lemma UsersWithoutTransactionsRows(users: seq<Record>, txs: seq<Record>)
    ensures var r := UsersWithoutTransactions(users, txs);
      && (forall j | 0 <= j < |r| :: ProjectsUnreferencedUser(users, txs, r[j]))
      && (forall i | 0 <= i < |users| :: (exists j | 0 <= j < |r| :: r[j].id == IdOf(users[i])) <==> !HasTransactions(txs, IdOf(users[i])))
  {
    var us := Unreferenced(users, txs);
    var r := UsersWithoutTransactions(users, txs);
    forall j | 0 <= j < |r| ensures ProjectsUnreferencedUser(users, txs, r[j]) {
      assert r[j] == ProjectNames(us[j]);
      assert us[j] in us;
      var i :| 0 <= i < |users| && users[i] == us[j];
      assert r[j] == ProjectNames(users[i]) && !HasTransactions(txs, IdOf(users[i]));
    }
    forall i | 0 <= i < |users| ensures (exists j | 0 <= j < |r| :: r[j].id == IdOf(users[i])) <==> !HasTransactions(txs, IdOf(users[i])) {
      if !HasTransactions(txs, IdOf(users[i])) {
        assert users[i] in us;
        var j :| 0 <= j < |us| && us[j] == users[i];
        assert r[j].id == IdOf(users[i]);
      } else {
        forall j | 0 <= j < |r| ensures r[j].id != IdOf(users[i]) {
          assert us[j] in us;
        }
      }
    }
  }

  /** With unique user `_id`s, no user appears twice. */
  lemma UsersWithoutTransactionsOnce(users: seq<Record>, txs: seq<Record>)
    requires UniqueIds(users)
    ensures var r := UsersWithoutTransactions(users, txs);
      forall i, j | 0 <= i < j < |r| :: r[i].id != r[j].id
  {
    var p := u => WithoutTransactions(txs, u);
    FilterDistinctBy(users, p, IdOf);
  }

  // ---------------------------------------------------------------------
  // Worked examples
  // ---------------------------------------------------------------------

  const UserA: Record := map["_id" := Num(1), "first_name" := Str("Ana"), "last_name" := Str("Haddad")]
  const UserB: Record := map["_id" := Num(2), "first_name" := Str("Bilal"), "last_name" := Str("Mansour")]
  const PurchaseA1: Record := map["user_id" := Num(1), "amount" := Num(100)]
  const PurchaseA2: Record := map["user_id" := Num(1), "amount" := Num(50)]
  const PurchaseB: Record := map["user_id" := Num(2), "amount" := Num(30)]

  lemma PurchasesGroupByUser()
    ensures GroupKeys([PurchaseA1, PurchaseA2, PurchaseB], "user_id") == [Num(1), Num(2)]
  {
    assert Field(PurchaseA1, "user_id") == Num(1) && Field(PurchaseA2, "user_id") == Num(1);
    assert Field(PurchaseB, "user_id") == Num(2);
    assert [PurchaseA1, PurchaseA2][..1] == [PurchaseA1];
    assert [PurchaseA1, PurchaseA2, PurchaseB][..2] == [PurchaseA1, PurchaseA2];
    assert GroupKeys([PurchaseA1], "user_id") == [Num(1)];
    assert GroupKeys([PurchaseA1, PurchaseA2], "user_id") == [Num(1)];
  }

  lemma PurchasesOfA()
    ensures Members([PurchaseA1, PurchaseA2, PurchaseB], "user_id", Num(1)) == [PurchaseA1, PurchaseA2]
  {
    var p := InGroup("user_id", Num(1));
    assert Field(PurchaseA1, "user_id") == Num(1) && Field(PurchaseA2, "user_id") == Num(1);
    assert Field(PurchaseB, "user_id") == Num(2);
    assert p(PurchaseA1) && p(PurchaseA2) && !p(PurchaseB);
    assert [PurchaseA1, PurchaseA2, PurchaseB][1..] == [PurchaseA2, PurchaseB];
    assert [PurchaseA2, PurchaseB][1..] == [PurchaseB];
    assert Filter([PurchaseB], p) == [];
    assert Filter([PurchaseA2, PurchaseB], p) == [PurchaseA2];
  }

  lemma PurchasesOfB()
    ensures Members([PurchaseA1, PurchaseA2, PurchaseB], "user_id", Num(2)) == [PurchaseB]
  {
    var p := InGroup("user_id", Num(2));
    assert Field(PurchaseA1, "user_id") == Num(1) && Field(PurchaseA2, "user_id") == Num(1);
    assert Field(PurchaseB, "user_id") == Num(2);
    assert !p(PurchaseA1) && !p(PurchaseA2) && p(PurchaseB);
    assert [PurchaseA1, PurchaseA2, PurchaseB][1..] == [PurchaseA2, PurchaseB];
    assert [PurchaseA2, PurchaseB][1..] == [PurchaseB];
    assert Filter([PurchaseB], p) == [PurchaseB];
    assert Filter([PurchaseA2, PurchaseB], p) == [PurchaseB];
  }

  lemma RowOfA()
    ensures SpentRowFor([PurchaseA1, PurchaseA2, PurchaseB], [UserA, UserB], Num(1))
      == SpentRow(Num(1), Some(Str("Ana")), Some(Str("Haddad")), 150.0)
  {
    PurchasesOfA();
    assert IdOf(UserA) == Num(1);
    assert "first_name" in UserA && UserA["first_name"] == Str("Ana");
    assert "last_name" in UserA && UserA["last_name"] == Str("Haddad");
    assert JoinedField([UserA, UserB], Num(1), "first_name") == Some(Str("Ana"));
    assert JoinedField([UserA, UserB], Num(1), "last_name") == Some(Str("Haddad"));
    assert AmountOf(PurchaseA1) == 100.0 && AmountOf(PurchaseA2) == 50.0;
    assert [PurchaseA1, PurchaseA2][1..] == [PurchaseA2];
    assert [PurchaseA2][1..] == [];
    assert SumAmounts([PurchaseA2]) == 50.0;
    assert SumAmounts([PurchaseA1, PurchaseA2]) == 150.0;
  }

  lemma RowOfB()
    ensures SpentRowFor([PurchaseA1, PurchaseA2, PurchaseB], [UserA, UserB], Num(2))
      == SpentRow(Num(2), Some(Str("Bilal")), Some(Str("Mansour")), 30.0)
  {
    PurchasesOfB();
    assert IdOf(UserA) == Num(1) && IdOf(UserB) == Num(2);
    assert "first_name" in UserB && UserB["first_name"] == Str("Bilal");
    assert "last_name" in UserB && UserB["last_name"] == Str("Mansour");
    assert [UserA, UserB][1..] == [UserB];
    assert JoinedField([UserA, UserB], Num(2), "first_name") == Some(Str("Bilal"));
    assert JoinedField([UserA, UserB], Num(2), "last_name") == Some(Str("Mansour"));
    assert AmountOf(PurchaseB) == 30.0;
    assert [PurchaseB][1..] == [];
    assert SumAmounts([PurchaseB]) == 30.0;
  }

  lemma RowsOfPurchases()
    ensures SpentRows([PurchaseA1, PurchaseA2, PurchaseB], [UserA, UserB])
      == [SpentRow(Num(1), Some(Str("Ana")), Some(Str("Haddad")), 150.0),
          SpentRow(Num(2), Some(Str("Bilal")), Some(Str("Mansour")), 30.0)]
  {
    var txs := [PurchaseA1, PurchaseA2, PurchaseB];
    var rows := SpentRows(txs, [UserA, UserB]);
    PurchasesGroupByUser();
    RowOfA();
    RowOfB();
    assert |rows| == 2;
    assert rows[0] == SpentRowFor(txs, [UserA, UserB], Num(1));
    assert rows[1] == SpentRowFor(txs, [UserA, UserB], Num(2));
  }

  /** Two rows already largest first stay as they are. */
  lemma SortTwoInOrder(ra: SpentRow, rb: SpentRow)
    requires ra.totalSpent >= rb.totalSpent
    ensures SortByTotal([ra, rb]) == [ra, rb]
  {
    assert [ra, rb][1..] == [rb];
    assert [rb][1..] == [];
  }

  /** Users A (100 + 50) and B (30): A comes first with 150, then B with 30. */
  lemma TotalSpentExample()
    ensures TotalSpentByUser([PurchaseA1, PurchaseA2, PurchaseB], [UserA, UserB])
      == [SpentRow(Num(1), Some(Str("Ana")), Some(Str("Haddad")), 150.0),
          SpentRow(Num(2), Some(Str("Bilal")), Some(Str("Mansour")), 30.0)]
  {
    RowsOfPurchases();
    SortTwoInOrder(SpentRow(Num(1), Some(Str("Ana")), Some(Str("Haddad")), 150.0),
                   SpentRow(Num(2), Some(Str("Bilal")), Some(Str("Mansour")), 30.0));
  }

  const Success10: Record := map["status" := Str("SUCCESS"), "amount" := Num(10)]
  const Success20: Record := map["status" := Str("SUCCESS"), "amount" := Num(20)]
  const Success30: Record := map["status" := Str("SUCCESS"), "amount" := Num(30)]

  lemma SuccessesFormOneGroup()
    ensures GroupKeys([Success10, Success20, Success30], "status") == [Str("SUCCESS")]
    ensures Members([Success10, Success20, Success30], "status", Str("SUCCESS")) == [Success10, Success20, Success30]
  {
    var txs := [Success10, Success20, Success30];
    assert Field(Success10, "status") == Str("SUCCESS");
    assert Field(Success20, "status") == Str("SUCCESS");
    assert Field(Success30, "status") == Str("SUCCESS");
    assert txs[..1] == [Success10] && txs[..2] == [Success10, Success20];
    assert [Success10, Success20][..1] == [Success10];
    assert GroupKeys([Success10], "status") == [Str("SUCCESS")];
    assert GroupKeys([Success10, Success20], "status") == [Str("SUCCESS")];
    FilterKeepsAll(txs, InGroup("status", Str("SUCCESS")));
  }

  lemma SuccessAmounts()
    ensures SumAmounts([Success10, Success20, Success30]) == 60.0
    ensures Filter([Success10, Success20, Success30], HasNumericAmount) == [Success10, Success20, Success30]
  {
    var txs := [Success10, Success20, Success30];
    assert AmountOf(Success10) == 10.0 && AmountOf(Success20) == 20.0 && AmountOf(Success30) == 30.0;
    assert txs[1..] == [Success20, Success30] && [Success20, Success30][1..] == [Success30];
    assert [Success30][1..] == [];
    assert SumAmounts([Success30]) == 30.0;
    assert SumAmounts([Success20, Success30]) == 50.0;
    FilterKeepsAll(txs, HasNumericAmount);
  }

  /** Three SUCCESS transactions of 10, 20 and 30: one row, count 3, mean 20. */
  lemma StatusPatternsExample()
    ensures TransactionStatusPatterns([Success10, Success20, Success30])
      == [StatusRow(Str("SUCCESS"), 3, Some(20.0))]
  {
    SuccessesFormOneGroup();
    SuccessAmounts();
    assert AvgAmount([Success10, Success20, Success30]) == Some(20.0);
  }
}
