/** The repair passes over the two collections and the order in which the
    engine runs them. The store is an object whose `users` and
    `transactions` collections the passes update in place. */
module Cleaning {
  import opened Values
  import opened Seqs
  import opened Normalizers
  import Aggregations

  // ---------------------------------------------------------------------
  // The store and its invariant
  // ---------------------------------------------------------------------

  /** The key of the unique index on `users.email`: an absent e-mail is
      indexed as null, so at most one user may lack one. */
  function EmailKey(u: Record): Value {
    Field(u, "email")
  }

  predicate UniqueEmails(users: seq<Record>) {
    forall i, j | 0 <= i < j < |users| :: EmailKey(users[i]) != EmailKey(users[j])
  }

  /** What the store guarantees of its collections: every document has an
      `_id`, `_id`s are unique per collection, and user e-mails are unique. */
  predicate StoreInvariant(users: seq<Record>, transactions: seq<Record>) {
    && HasIds(users) && UniqueIds(users) && UniqueEmails(users)
    && HasIds(transactions) && UniqueIds(transactions)
  }

  // ---------------------------------------------------------------------
  // The user pass, as a function of the collection it starts from
  // ---------------------------------------------------------------------

  /** `key` is already the index key of some user other than the i-th. */
  predicate EmailTakenByOther(users: seq<Record>, i: int, key: Value) {
    exists j | 0 <= j < |users| :: j != i && EmailKey(users[j]) == key
  }

  /** The collection and the success count while the user pass runs. */
  datatype UserPass = UserPass(users: seq<Record>, count: nat)

  /** `update_one` on the i-th user with the document `repair` computes for
      it: applied and counted, or refused whole by the unique e-mail index
      (the exception is caught and the user skipped). */
  function TryRepairUser(p: UserPass, repair: Record -> Record, i: nat): UserPass
    requires i < |p.users|
  {
    var candidate := repair(p.users[i]);
    if EmailTakenByOther(p.users, i, EmailKey(candidate)) then p
    else UserPass(p.users[i := candidate], p.count + 1)
  }

  /** The state once the pass has visited the first k users. The pass is
      stated for any per-user repair; the store runs it with `RepairUser`. */
  function UsersPassPrefix(users: seq<Record>, repair: Record -> Record, k: nat): (p: UserPass)
    requires k <= |users|
    ensures |p.users| == |users|
    ensures p.count <= k
  {
    if k == 0 then UserPass(users, 0) else TryRepairUser(UsersPassPrefix(users, repair, k - 1), repair, k - 1)
  }

  /** The whole user pass with the normalizers of the cleaning code. */
  function CleanedUsers(users: seq<Record>): (p: UserPass)
    ensures |p.users| == |users|
  {
    UsersPassPrefix(users, RepairUser, |users|)
  }

  /** Each user ends either untouched or exactly repaired, and users not
      yet visited are untouched. */
  lemma {:induction false} UsersPassShape(users: seq<Record>, repair: Record -> Record, k: nat)
    requires k <= |users|
    ensures var p := UsersPassPrefix(users, repair, k);
      && (forall i | 0 <= i < |users| :: p.users[i] == users[i] || p.users[i] == repair(users[i]))
      && (forall i | k <= i < |users| :: p.users[i] == users[i])
  {
    if k > 0 {
      UsersPassShape(users, repair, k - 1);
    }
  }

  /** A visited user is never touched again. */
  lemma {:induction false} UsersPassFrozen(users: seq<Record>, repair: Record -> Record, i: nat, k: nat)
    requires i < k <= |users|
    ensures UsersPassPrefix(users, repair, k).users[i] == UsersPassPrefix(users, repair, i + 1).users[i]
  {
    if k > i + 1 {
      UsersPassFrozen(users, repair, i, k - 1);
    }
  }

  /** The pass never lets two users share an e-mail. */
  lemma {:induction false} UsersPassKeepsUniqueEmails(users: seq<Record>, repair: Record -> Record, k: nat)
    requires k <= |users|
    requires UniqueEmails(users)
    ensures UniqueEmails(UsersPassPrefix(users, repair, k).users)
  {
    if k > 0 {
      UsersPassKeepsUniqueEmails(users, repair, k - 1);
      var p := UsersPassPrefix(users, repair, k - 1);
      var candidate := repair(p.users[k - 1]);
      if !EmailTakenByOther(p.users, k - 1, EmailKey(candidate)) {
        var us := p.users[k - 1 := candidate];
        forall i, j | 0 <= i < j < |us| ensures EmailKey(us[i]) != EmailKey(us[j]) {
          if i == k - 1 {
            assert EmailKey(p.users[j]) != EmailKey(candidate);
          } else if j == k - 1 {
            assert EmailKey(p.users[i]) != EmailKey(candidate);
          }
        }
      }
    }
  }

  /** The repair leaves `_id` alone. */
  ghost predicate KeepsId(repair: Record -> Record) {
    forall u :: IdOf(repair(u)) == IdOf(u) && ("_id" in repair(u) <==> "_id" in u)
  }

  lemma RepairUserKeepsId()
    ensures KeepsId(RepairUser)
  {
    forall u ensures IdOf(RepairUser(u)) == IdOf(u) && ("_id" in RepairUser(u) <==> "_id" in u) {
      RepairUserSets(u);
      assert "_id" !in UserFields;
    }
  }

  /** The pass never changes a user's `_id`. */
  lemma UsersPassKeepsIds(users: seq<Record>, repair: Record -> Record)
    requires KeepsId(repair)
    ensures var us := UsersPassPrefix(users, repair, |users|).users;
      forall i | 0 <= i < |users| :: IdOf(us[i]) == IdOf(users[i]) && ("_id" in us[i] <==> "_id" in users[i])
  {
    UsersPassShape(users, repair, |users|);
  }

  /** The number of positions below k where `us` holds the repaired form of `original`. */
  function CountRepaired(original: seq<Record>, us: seq<Record>, repair: Record -> Record, k: nat): nat
    requires k <= |original| && k <= |us|
  {
    if k == 0 then 0
    else CountRepaired(original, us, repair, k - 1) + (if us[k - 1] == repair(original[k - 1]) then 1 else 0)
  }

  lemma {:induction false} CountRepairedPrefix(original: seq<Record>, a: seq<Record>, b: seq<Record>, repair: Record -> Record, k: nat)
    requires k <= |original| && k <= |a| && k <= |b|
    requires forall i | 0 <= i < k :: a[i] == b[i]
    ensures CountRepaired(original, a, repair, k) == CountRepaired(original, b, repair, k)
  {
    if k > 0 {
      CountRepairedPrefix(original, a, b, repair, k - 1);
    }
  }

  /** A user already in its repaired form never collides with another. */
  lemma CleanUserNeverCollides(us: seq<Record>, i: nat, candidate: Record)
    requires i < |us| && UniqueEmails(us)
    requires EmailKey(candidate) == EmailKey(us[i])
    ensures !EmailTakenByOther(us, i, EmailKey(candidate))
  {
    forall j | 0 <= j < |us| && j != i ensures EmailKey(us[j]) != EmailKey(candidate) {
      if j < i {
        assert EmailKey(us[j]) != EmailKey(us[i]);
      } else {
        assert EmailKey(us[i]) != EmailKey(us[j]);
      }
    }
  }

  /** An update the unique index refuses is one that would have changed the user. */
  lemma RefusedUserWasNotClean(us: seq<Record>, i: nat, repair: Record -> Record)
    requires i < |us| && UniqueEmails(us)
    ensures EmailTakenByOther(us, i, EmailKey(repair(us[i]))) ==> repair(us[i]) != us[i]
  {
    if repair(us[i]) == us[i] {
      CleanUserNeverCollides(us, i, us[i]);
    }
  }

  /** What holds of the pass after k steps: the users from k on are still as
      stored, e-mails are unique, and the count is the number of users
      below k that hold their repaired form. */
  predicate CountInvariant(users: seq<Record>, repair: Record -> Record, p: UserPass, k: nat) {
    && k <= |users| == |p.users|
    && (forall i | k <= i < |users| :: p.users[i] == users[i])
    && UniqueEmails(p.users)
    && p.count == CountRepaired(users, p.users, repair, k)
  }

  /** One step of the pass keeps the invariant: it counts exactly when it
      leaves the user repaired. */
  lemma TryRepairCounts(users: seq<Record>, p: UserPass, repair: Record -> Record, k: nat)
    requires k < |users|
    requires CountInvariant(users, repair, p, k)
    ensures CountInvariant(users, repair, TryRepairUser(p, repair, k), k + 1)
  {
    RefusedUserWasNotClean(p.users, k, repair);
    var next := TryRepairUser(p, repair, k);
    if next == p {
      assert CountRepaired(users, p.users, repair, k + 1) == CountRepaired(users, p.users, repair, k);
    } else {
      var candidate := repair(p.users[k]);
      CountRepairedPrefix(users, next.users, p.users, repair, k);
      forall i, j | 0 <= i < j < |next.users| ensures EmailKey(next.users[i]) != EmailKey(next.users[j]) {
        if i == k {
          assert EmailKey(p.users[j]) != EmailKey(candidate);
        } else if j == k {
          assert EmailKey(p.users[i]) != EmailKey(candidate);
        }
      }
    }
  }

  /** The count the pass reports is the number of users that now hold their
      repaired form: a refused update leaves a user that was not yet clean. */
  lemma {:induction false} UsersPassCount(users: seq<Record>, repair: Record -> Record, k: nat)
    requires k <= |users|
    requires UniqueEmails(users)
    ensures var p := UsersPassPrefix(users, repair, k);
      p.count == CountRepaired(users, p.users, repair, k)
  {
    UsersPassCountInvariant(users, repair, k);
  }

  lemma {:induction false} UsersPassCountInvariant(users: seq<Record>, repair: Record -> Record, k: nat)
    requires k <= |users|
    requires UniqueEmails(users)
    ensures CountInvariant(users, repair, UsersPassPrefix(users, repair, k), k)
  {
    if k > 0 {
      UsersPassCountInvariant(users, repair, k - 1);
      TryRepairCounts(users, UsersPassPrefix(users, repair, k - 1), repair, k - 1);
    }
  }

  /** A user whose e-mail the repair keeps is always updated: only a changed
      address can collide under the unique index. */
  lemma UsersPassRepairsKeptEmails(users: seq<Record>, repair: Record -> Record, i: nat)
    requires i < |users|
    requires UniqueEmails(users)
    requires EmailKey(repair(users[i])) == EmailKey(users[i])
    ensures UsersPassPrefix(users, repair, |users|).users[i] == repair(users[i])
  {
    var p := UsersPassPrefix(users, repair, i);
    UsersPassShape(users, repair, i);
    UsersPassKeepsUniqueEmails(users, repair, i);
    CleanUserNeverCollides(p.users, i, repair(users[i]));
    UsersPassFrozen(users, repair, i, |users|);
  }

  /** With the cleaning code's normalizers: a user whose stored address is
      the one the e-mail normalizer returns gets its full update. */
  lemma CleanedUsersRepairValidEmails(users: seq<Record>, i: nat)
    requires i < |users|
    requires UniqueEmails(users)
    requires EmailKey(users[i]) == Str(CleanEmail(users[i]))
    ensures CleanedUsers(users).users[i] == RepairUser(users[i])
  {
    UsersPassRepairsKeptEmails(users, RepairUser, i);
  }

  /** The user pass keeps what the store guarantees. */
  lemma CleanedUsersKeepInvariant(users: seq<Record>, txs: seq<Record>)
    requires StoreInvariant(users, txs)
    ensures StoreInvariant(CleanedUsers(users).users, txs)
  {
    UsersPassKeepsUniqueEmails(users, RepairUser, |users|);
    RepairUserKeepsId();
    UsersPassKeepsIds(users, RepairUser);
  }

  // ---------------------------------------------------------------------
  // The transaction pass, as functions of the collection it starts from
  // ---------------------------------------------------------------------

  predicate IsRepairable(t: Record) {
    !HasUnrepairableAmount(t)
  }

  /** What survives the bulk delete that opens the transaction pass. */
  function RepairableTxs(txs: seq<Record>): seq<Record> {
    Filter(txs, IsRepairable)
  }

  /** What that bulk delete removes. */
  function UnrepairableTxs(txs: seq<Record>): seq<Record> {
    Filter(txs, HasUnrepairableAmount)
  }

  /** The bulk delete removes exactly the transactions with a numeric amount
      at most zero, an absent amount or a null one, and keeps the rest. */
  lemma DeletesExactlyUnrepairable(txs: seq<Record>)
    ensures forall t :: t in RepairableTxs(txs) <==> t in txs && !HasUnrepairableAmount(t)
    ensures forall t :: t in UnrepairableTxs(txs) <==> t in txs && HasUnrepairableAmount(t)
    ensures multiset(RepairableTxs(txs)) + multiset(UnrepairableTxs(txs)) == multiset(txs)
  {
    FilterPartition(txs, IsRepairable, HasUnrepairableAmount);
  }

  /** Each surviving transaction after its per-document update. */
  function RepairedTxs(txs: seq<Record>, now: string, parses: string -> bool): (r: seq<Record>)
    ensures |r| == |txs|
    ensures forall i | 0 <= i < |txs| :: r[i] == RepairTx(txs[i], now, parses)
  {
    seq(|txs|, i requires 0 <= i < |txs| => RepairTx(txs[i], now, parses))
  }

  /** How many of `txs` get a write (a non-empty `$set`). */
  function CountNeedingWrite(txs: seq<Record>, parses: string -> bool): nat {
    if txs == [] then 0
    else CountNeedingWrite(txs[..|txs| - 1], parses) + (if NeedsWrite(txs[|txs| - 1], parses) then 1 else 0)
  }

  lemma CountNeedingWriteStep(txs: seq<Record>, i: nat, parses: string -> bool)
    requires i < |txs|
    ensures CountNeedingWrite(txs[..i + 1], parses)
         == CountNeedingWrite(txs[..i], parses) + (if NeedsWrite(txs[i], parses) then 1 else 0)
  {
    assert txs[..i + 1][..i] == txs[..i];
  }

  /** A transaction as the pass leaves it: its amount is not one the bulk
      delete removes, its status is valid, and its timestamp is absent,
      parses, or is the repair time. */
  predicate CleanTx(t: Record, now: string, parses: string -> bool) {
    && !HasUnrepairableAmount(t)
    && HasValidStatus(t)
    && ("timestamp" in t ==> parses(Render(t["timestamp"])) || t["timestamp"] == Str(now))
  }

  /** `t` is the repaired form of a transaction of `txs` that escaped the bulk delete. */
  predicate RepairedFrom(t: Record, txs: seq<Record>, now: string, parses: string -> bool) {
    exists j | 0 <= j < |txs| :: !HasUnrepairableAmount(txs[j]) && t == RepairTx(txs[j], now, parses)
  }

  /** The whole transaction pass: every survivor is clean, every survivor
      comes from a transaction of the input, and no document is created. */
  lemma TransactionPassOutcome(txs: seq<Record>, now: string, parses: string -> bool)
    ensures var r := RepairedTxs(RepairableTxs(txs), now, parses);
      && |r| <= |txs|
      && (forall i | 0 <= i < |r| :: CleanTx(r[i], now, parses))
      && (forall i | 0 <= i < |r| :: RepairedFrom(r[i], txs, now, parses))
  {
    var kept := RepairableTxs(txs);
    var r := RepairedTxs(kept, now, parses);
    forall i | 0 <= i < |r|
      ensures CleanTx(r[i], now, parses)
      ensures RepairedFrom(r[i], txs, now, parses)
    {
      assert kept[i] in kept;
      RepairTxSets(kept[i], now, parses);
      assert kept[i] in txs && !HasUnrepairableAmount(kept[i]);
      var j :| 0 <= j < |txs| && txs[j] == kept[i];
      assert r[i] == RepairTx(txs[j], now, parses);
      assert Field(r[i], "amount") == Field(kept[i], "amount");
    }
  }

  lemma {:induction false} RepairedTxsKeepIds(txs: seq<Record>, now: string, parses: string -> bool)
    requires HasIds(txs) && UniqueIds(txs)
    ensures var r := RepairedTxs(txs, now, parses);
      HasIds(r) && UniqueIds(r)
  {
    var r := RepairedTxs(txs, now, parses);
    forall i | 0 <= i < |txs| ensures IdOf(r[i]) == IdOf(txs[i]) && ("_id" in r[i] <==> "_id" in txs[i]) {
      RepairTxSets(txs[i], now, parses);
    }
  }

  lemma {:induction false} FilterKeepsIds(docs: seq<Record>, p: Record -> bool)
    requires HasIds(docs) && UniqueIds(docs)
    ensures HasIds(Filter(docs, p)) && UniqueIds(Filter(docs, p))
  {
    assert DistinctBy(docs, IdOf);
    FilterDistinctBy(docs, p, IdOf);
    var r := Filter(docs, p);
    forall i | 0 <= i < |r| ensures "_id" in r[i] {
      assert r[i] in r;
      var k :| 0 <= k < |docs| && docs[k] == r[i];
    }
  }

  /** The transaction pass keeps what the store guarantees. */
  lemma TransactionPassKeepsInvariant(users: seq<Record>, txs: seq<Record>, now: string, parses: string -> bool)
    requires StoreInvariant(users, txs)
    ensures StoreInvariant(users, RepairedTxs(RepairableTxs(txs), now, parses))
  {
    FilterKeepsIds(txs, IsRepairable);
    RepairedTxsKeepIds(RepairableTxs(txs), now, parses);
  }

  /** Re-running the transaction pass on its own output deletes nothing and
      rewrites no status; a timestamp that parses stays as it is. */
  lemma TransactionPassRerun(txs: seq<Record>, now: string, now2: string, parses: string -> bool)
    ensures var once := RepairedTxs(RepairableTxs(txs), now, parses);
      var twice := RepairedTxs(RepairableTxs(once), now2, parses);
      && RepairableTxs(once) == once
      && |twice| == |once|
      && (forall i | 0 <= i < |once| :: twice[i]["status"] == once[i]["status"])
      && (forall i | 0 <= i < |once| :: "timestamp" in once[i] && parses(Render(once[i]["timestamp"]))
            ==> twice[i]["timestamp"] == once[i]["timestamp"])
  {
    var once := RepairedTxs(RepairableTxs(txs), now, parses);
    TransactionPassOutcome(txs, now, parses);
    forall t | t in once ensures IsRepairable(t) {
      var i :| 0 <= i < |once| && once[i] == t;
    }
    FilterKeepsAll(once, IsRepairable);
    var twice := RepairedTxs(once, now2, parses);
    forall i | 0 <= i < |once|
      ensures twice[i]["status"] == once[i]["status"]
      ensures "timestamp" in once[i] && parses(Render(once[i]["timestamp"])) ==> twice[i]["timestamp"] == once[i]["timestamp"]
    {
      RepairTxSets(once[i], now2, parses);
    }
  }

  // ---------------------------------------------------------------------
  // Referential integrity
  // ---------------------------------------------------------------------

  /** The `_id`s of the users collection. */
  function UserIdSet(users: seq<Record>): set<Value> {
    set i | 0 <= i < |users| :: IdOf(users[i])
  }

  /** What survives `delete_many({'user_id': {'$nin': ids}})`; an absent
      `user_id` reads as null. */
  function Referenced(txs: seq<Record>, ids: set<Value>): (r: seq<Record>)
    ensures |r| <= |txs|
    ensures forall i | 0 <= i < |r| :: Field(r[i], "user_id") in ids
  {
    var r := Filter(txs, t => Field(t, "user_id") in ids);
    assert forall i | 0 <= i < |r| :: r[i] in r;
    r
  }

  /** The delete keeps exactly the transactions naming an existing user:
      afterwards no reference dangles. */
  lemma ReferencedExactly(txs: seq<Record>, users: seq<Record>)
    ensures forall t :: t in Referenced(txs, UserIdSet(users)) <==>
      t in txs && exists i | 0 <= i < |users| :: IdOf(users[i]) == Field(t, "user_id")
  {
  }

  /** A second integrity check over the same users deletes nothing. */
  lemma ReferencedIdempotent(txs: seq<Record>, ids: set<Value>)
    ensures Referenced(Referenced(txs, ids), ids) == Referenced(txs, ids)
  {
    FilterIdempotent(txs, t => Field(t, "user_id") in ids);
  }

  /** The body of the transaction loop for one document: the `$set` it
      builds, applied, and whether it is non-empty (an `update_one` is
      issued only then). */
  method RepairTransaction(tx: Record, now: string, parses: string -> bool) returns (repaired: Record, write: bool)
    ensures write == NeedsWrite(tx, parses)
    ensures repaired == RepairTx(tx, now, parses)
    ensures !write ==> repaired == tx
  {
    var update := TxUpdate(tx, now, parses);
    write := update != map[];
    repaired := tx + update;
    if !write {
      NoUpdateNoChange(tx, now, parses);
    }
  }

  // ---------------------------------------------------------------------
  // The store
  // ---------------------------------------------------------------------

  class Store {
    var users: seq<Record>
    var transactions: seq<Record>

    ghost predicate Valid()
      reads this
    {
      StoreInvariant(users, transactions)
    }

    /** The collections as the import step leaves them. */
    constructor (users0: seq<Record>, transactions0: seq<Record>)
      requires StoreInvariant(users0, transactions0)
      ensures Valid()
      ensures users == users0 && transactions == transactions0
    {
      users := users0;
      transactions := transactions0;
    }

    /** The user pass: every user is visited once and `$set` with its
        normalized fields; a refused update skips the user uncounted. */
    method CleanUsers() returns (count: nat)
      requires Valid()
      modifies this
      ensures Valid()
      ensures UserPass(users, count) == CleanedUsers(old(users))
      ensures transactions == old(transactions)
    {
      count := VisitUsers(RepairUser);
      CleanedUsersKeepInvariant(old(users), transactions);
    }

    /** The loop of the user pass for any per-user repair: `update_one`
        on each user in turn, applied and counted unless the unique e-mail
        index refuses it. */
    method VisitUsers(repair: Record -> Record) returns (count: nat)
      modifies this
      ensures UserPass(users, count) == UsersPassPrefix(old(users), repair, |old(users)|)
      ensures transactions == old(transactions)
    {
      count := 0;
      var i := 0;
      while i < |users|
        invariant 0 <= i <= |users| == |old(users)|
        invariant UserPass(users, count) == UsersPassPrefix(old(users), repair, i)
        invariant transactions == old(transactions)
      {
        var candidate := repair(users[i]);
        if !EmailTakenByOther(users, i, EmailKey(candidate)) {
          users := users[i := candidate];
          count := count + 1;
        }
        i := i + 1;
      }
    }

    /** The bulk delete that opens the transaction pass: every transaction
        whose amount is a number at most 0, missing, or null goes. */
    method DeleteUnrepairable()
      requires Valid()
      modifies this
      ensures Valid()
      ensures users == old(users)
      ensures transactions == RepairableTxs(old(transactions))
    {
      FilterKeepsIds(transactions, IsRepairable);
      transactions := RepairableTxs(transactions);
    }

    /** The transaction pass: the bulk delete of unrepairable amounts, then
        one visit per survivor, writing only when its update is non-empty. */
    method CleanTransactions(now: string, parses: string -> bool) returns (count: nat, writes: nat)
      requires Valid()
      modifies this
      ensures Valid()
      ensures users == old(users)
      ensures transactions == RepairedTxs(RepairableTxs(old(transactions)), now, parses)
      ensures count == |transactions|
      ensures writes == CountNeedingWrite(RepairableTxs(old(transactions)), parses)
    {
      DeleteUnrepairable();
      ghost var kept := transactions;
      count, writes := 0, 0;
      var i := 0;
      while i < |transactions|
        invariant 0 <= i <= |transactions| == |kept|
        invariant forall k | 0 <= k < i :: transactions[k] == RepairTx(kept[k], now, parses)
        invariant forall k | i <= k < |kept| :: transactions[k] == kept[k]
        invariant count == i
        invariant writes == CountNeedingWrite(kept[..i], parses)
        invariant users == old(users)
      {
        var repaired, write := RepairTransaction(transactions[i], now, parses);
        CountNeedingWriteStep(kept, i, parses);
        if write {
          transactions := transactions[i := repaired];
          writes := writes + 1;
        }
        count := count + 1;
        i := i + 1;
      }
      assert kept[..i] == kept;
      RepairedTxsKeepIds(kept, now, parses);
    }

    /** The integrity check: collect the user `_id`s, then delete in one
        bulk operation every transaction whose `user_id` is not among them. */
    method ValidateRelationships() returns (deleted: nat)
      requires Valid()
      modifies this
      ensures Valid()
      ensures users == old(users)
      ensures transactions == Referenced(old(transactions), UserIdSet(users))
      ensures deleted == |old(transactions)| - |transactions|
    {
      var ids: set<Value> := {};
      var i := 0;
      while i < |users|
        invariant 0 <= i <= |users|
        invariant ids == UserIdSet(users[..i])
      {
        assert users[..i + 1] == users[..i] + [users[i]];
        ids := ids + {IdOf(users[i])};
        i := i + 1;
      }
      assert users[..i] == users;
      var kept := Referenced(transactions, ids);
      FilterKeepsIds(transactions, t => Field(t, "user_id") in ids);
      deleted := |transactions| - |kept|;
      transactions := kept;
    }

    /** The engine: users, then transactions, then referential integrity. */
    method CleanAll(now: string, parses: string -> bool)
      requires Valid()
      modifies this
      ensures Valid()
      ensures users == CleanedUsers(old(users)).users
      ensures transactions ==
        Referenced(RepairedTxs(RepairableTxs(old(transactions)), now, parses), UserIdSet(users))
    {
      var repairedUsers := CleanUsers();
      var visited, writes := CleanTransactions(now, parses);
      var deleted := ValidateRelationships();
    }
  }

  /** After the engine no user's `total_spent` is negative: every amount
      left is a positive number or is not a number at all. */
  lemma CleanAllTotalsNonNegative(users: seq<Record>, txs: seq<Record>, now: string, parses: string -> bool)
    requires StoreInvariant(users, txs)
    ensures var us := CleanedUsers(users).users;
      var ts := Referenced(RepairedTxs(RepairableTxs(txs), now, parses), UserIdSet(us));
      var rows := Aggregations.TotalSpentByUser(ts, us);
      forall i | 0 <= i < |rows| :: rows[i].totalSpent >= 0.0
  {
    var us := CleanedUsers(users).users;
    var ts := Referenced(RepairedTxs(RepairableTxs(txs), now, parses), UserIdSet(us));
    CleanAllOutcome(users, txs, now, parses);
    forall i | 0 <= i < |ts| ensures Aggregations.AmountOf(ts[i]) >= 0.0 {
      assert ts[i] in ts;
      assert !HasUnrepairableAmount(ts[i]);
    }
    Aggregations.TotalsNonNegative(ts, us);
  }

  /** What the engine leaves: as many users as before, each untouched or
      exactly repaired, with unique e-mails; and transactions that are all
      clean and all name an existing user. */
  lemma CleanAllOutcome(users: seq<Record>, txs: seq<Record>, now: string, parses: string -> bool)
    requires StoreInvariant(users, txs)
    ensures var us := CleanedUsers(users).users;
      var ts := Referenced(RepairedTxs(RepairableTxs(txs), now, parses), UserIdSet(us));
      && |us| == |users|
      && (forall i | 0 <= i < |us| :: us[i] == users[i] || us[i] == RepairUser(users[i]))
      && UniqueEmails(us)
      && (forall t | t in ts :: CleanTx(t, now, parses))
      && (forall t | t in ts :: Field(t, "user_id") in UserIdSet(us))
  {
    UsersPassShape(users, RepairUser, |users|);
    UsersPassKeepsUniqueEmails(users, RepairUser, |users|);
    var us := CleanedUsers(users).users;
    var r := RepairedTxs(RepairableTxs(txs), now, parses);
    TransactionPassOutcome(txs, now, parses);
    forall t | t in Referenced(r, UserIdSet(us)) ensures CleanTx(t, now, parses) {
      var i :| 0 <= i < |r| && r[i] == t;
    }
  }

  /** The user pass keeps the set of user `_id`s. */
  lemma CleanedUsersKeepIdSet(users: seq<Record>)
    ensures UserIdSet(CleanedUsers(users).users) == UserIdSet(users)
  {
    var us := CleanedUsers(users).users;
    RepairUserKeepsId();
    UsersPassKeepsIds(users, RepairUser);
    forall v | v in UserIdSet(users) ensures v in UserIdSet(us) {
      var i :| 0 <= i < |users| && IdOf(users[i]) == v;
      assert IdOf(us[i]) == v;
    }
    forall v | v in UserIdSet(us) ensures v in UserIdSet(users) {
      var i :| 0 <= i < |us| && IdOf(us[i]) == v;
      assert IdOf(users[i]) == v;
    }
  }

  /** Transactions that already have a repairable amount, a valid status and
      an existing user lose none of them to a second transaction pass and
      integrity check, and keep their statuses. */
  lemma TransactionsRerunQuiet(ts: seq<Record>, ids: set<Value>, now2: string, parses: string -> bool)
    requires forall t | t in ts :: IsRepairable(t) && HasValidStatus(t) && Field(t, "user_id") in ids
    ensures var ts2 := Referenced(RepairedTxs(RepairableTxs(ts), now2, parses), ids);
      && |ts2| == |ts|
      && (forall i | 0 <= i < |ts| :: Field(ts2[i], "status") == Field(ts[i], "status"))
  {
    FilterKeepsAll(ts, IsRepairable);
    var r2 := RepairedTxs(ts, now2, parses);
    forall i | 0 <= i < |ts|
      ensures Field(r2[i], "user_id") in ids
      ensures Field(r2[i], "status") == Field(ts[i], "status")
    {
      assert ts[i] in ts;
      RepairTxSets(ts[i], now2, parses);
    }
    forall t | t in r2 ensures Field(t, "user_id") in ids {
      var i :| 0 <= i < |r2| && r2[i] == t;
    }
    FilterKeepsAll(r2, t => Field(t, "user_id") in ids);
  }

  /** Running the engine a second time, at any later time, deletes no
      transaction and rewrites no status. */
  lemma CleanAllRerun(users: seq<Record>, txs: seq<Record>, now: string, now2: string, parses: string -> bool)
    requires StoreInvariant(users, txs)
    ensures var us := CleanedUsers(users).users;
      var ts := Referenced(RepairedTxs(RepairableTxs(txs), now, parses), UserIdSet(us));
      var us2 := CleanedUsers(us).users;
      var ts2 := Referenced(RepairedTxs(RepairableTxs(ts), now2, parses), UserIdSet(us2));
      && |ts2| == |ts|
      && (forall i | 0 <= i < |ts| :: Field(ts2[i], "status") == Field(ts[i], "status"))
  {
    var us := CleanedUsers(users).users;
    var ts := Referenced(RepairedTxs(RepairableTxs(txs), now, parses), UserIdSet(us));
    CleanAllOutcome(users, txs, now, parses);
    CleanedUsersKeepIdSet(us);
    TransactionsRerunQuiet(ts, UserIdSet(us), now2, parses);
  }
}
