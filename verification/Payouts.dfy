/** What runs of the distributor pay against a published blob: never more than its total, and all of it. */
module Payouts {
  import opened Wrappers
  import opened Buffers
  import opened Hashing
  import opened MerkleHash
  import opened BalanceTrees
  import opened BalanceMaps
  import opened BalanceProperties
  import opened BalanceMapProperties
  import opened BlobProperties
  import opened Distributor

  // ---- What can be paid ----

  function SumAttempts(attempts: seq<Attempt>): nat {
    if attempts == [] then 0 else SumAttempts(attempts[..|attempts| - 1]) + attempts[|attempts| - 1].amount
  }

  /** What the first n balances still owe once the indices in `claimed` are paid. */
  function Outstanding(balances: Balances, claimed: set<nat>, n: nat): nat
    requires n <= |balances|
  {
    if n == 0 then 0
    else Outstanding(balances, claimed, n - 1) + if n - 1 in claimed then 0 else balances[n - 1].amount
  }

  lemma {:induction false} OutstandingAfter(balances: Balances, claimed: set<nat>, n: nat, i: nat)
    requires n <= |balances| && i !in claimed
    ensures Outstanding(balances, claimed, n)
         == Outstanding(balances, claimed + {i}, n) + if i < n then balances[i].amount else 0
  {
    if n > 0 {
      OutstandingAfter(balances, claimed, n - 1, i);
    }
  }

  /** An attempt at the index of a balance, for that balance's amount. */
  ghost predicate Pays(balances: Balances, attempt: Attempt) {
    attempt.index < |balances| && balances[attempt.index].amount == attempt.amount
  }

  ghost predicate AllPay(balances: Balances, attempts: seq<Attempt>) {
    forall i | 0 <= i < |attempts| :: Pays(balances, attempts[i])
  }

  /** Paid and still owed add up to the total at every point of a run. */
  lemma {:induction false} PaymentsConserve(balances: Balances, attempts: seq<Attempt>)
    requires AllPay(balances, attempts) && DistinctIndices(attempts)
    ensures SumAttempts(attempts) + Outstanding(balances, Indices(attempts), |balances|)
         == Outstanding(balances, {}, |balances|)
  {
    hide Outstanding, Indices;
    if attempts == [] {
      NoIndices();
    } else {
      var init, last := attempts[..|attempts| - 1], attempts[|attempts| - 1];
      assert attempts == init + [last];
      PaymentsConserve(balances, init);
      IndicesGrow(init, last);
      LastIndexNew(init, last);
      OutstandingAfter(balances, Indices(init), |balances|, last.index);
    }
  }

  /** Every string hashed while the attempts are verified. */
  function AttemptPreimages(keccak: Hasher, attempts: seq<Attempt>): set<Bytes> {
    if attempts == [] then
      {}
    else
      var last := attempts[|attempts| - 1];
      AttemptPreimages(keccak, attempts[..|attempts| - 1])
      + VerifyPreimages(keccak, last.index, last.account, last.amount, last.proof)
  }

  /** Without a collision an accepted attempt is given out by the tree. */
  lemma {:induction false} ValidClaimGivenOut(keccak: Hasher, balances: Balances, attempt: Attempt, hashed: set<Bytes>)
    requires balances != [] && CollisionFree(keccak, hashed)
    requires BuildPreimages(keccak, balances) <= hashed && AttemptPreimages(keccak, [attempt]) <= hashed
    requires ValidClaim(keccak, MerkleRoot(keccak, balances), attempt)
    ensures GivenOut(keccak, balances, attempt.index, attempt.account, attempt.amount, attempt.proof)
  {
    hide BuildPreimages, VerifyPreimages, Accepts, MerkleRoot, GivenOut, CollisionFree, ToNode, LeafReadAsPair;
    var node := ToNode(keccak, attempt.index, attempt.account, attempt.amount);
    assert AttemptPreimages(keccak, [attempt])
        == VerifyPreimages(keccak, attempt.index, attempt.account, attempt.amount, attempt.proof);
    OpenedBalance(keccak, balances, attempt.index, attempt.account, attempt.amount, attempt.proof, hashed);
    NoPairReading(keccak, balances, node, attempt.proof);
  }

  /** Every string hashed for one of the attempts is hashed for the whole list. */
  lemma {:induction false} PreimagesOfOne(keccak: Hasher, attempts: seq<Attempt>, i: nat)
    requires i < |attempts|
    ensures AttemptPreimages(keccak, [attempts[i]]) <= AttemptPreimages(keccak, attempts)
  {
    hide VerifyPreimages;
    if i < |attempts| - 1 {
      PreimagesOfOne(keccak, attempts[..|attempts| - 1], i);
    }
  }

  /** So every accepted attempt pays a balance. */
  lemma {:induction false} ValidClaimsPay(
      keccak: Hasher, balances: Balances, attempts: seq<Attempt>, hashed: set<Bytes>)
    requires balances != [] && CollisionFree(keccak, hashed)
    requires BuildPreimages(keccak, balances) <= hashed && AttemptPreimages(keccak, attempts) <= hashed
    requires AllValidClaims(keccak, MerkleRoot(keccak, balances), attempts)
    ensures AllPay(balances, attempts)
  {
    hide BuildPreimages, AttemptPreimages, ValidClaim, MerkleRoot, ProofFor, CollisionFree;
    forall i | 0 <= i < |attempts| ensures Pays(balances, attempts[i]) {
      PreimagesOfOne(keccak, attempts, i);
      ValidClaimGivenOut(keccak, balances, attempts[i], hashed);
    }
  }

  // ---- The bound, against the published blob ----

  lemma {:induction false} OutstandingIsTotal(env: Env, memo: map<string, Entry>, addresses: seq<string>, n: nat)
    requires Listed(env, memo, addresses) && AllFit(memo) && n <= |addresses|
    ensures Outstanding(BalancesOf(env, memo, addresses), {}, n) == TotalUpTo(memo, addresses, n)
  {
    hide BalancesOf;
    if n > 0 {
      OutstandingIsTotal(env, memo, addresses, n - 1);
    }
  }

  lemma {:induction false} OutstandingIsSum(env: Env, rows: Rows)
    requires env.Lawful() && Parsed(env, rows).Ok?
    ensures AllGood(env, rows)
    ensures Outstanding(ListedBalances(env, rows), {}, |rows|) == SumRows(env, rows)
  {
    hide Parsed, Entries, Addresses, TotalUpTo, SumRows, Outstanding, BalancesOf, ClaimsUpTo, MerkleRoot;
    hide StringLeq, BufferToHex;
    Unpack(env, rows);
    OutstandingIsTotal(env, Entries(env, rows), Addresses(env, rows), |rows|);
    TotalIsSum(env, rows, Entries(env, rows), Addresses(env, rows));
  }

  lemma {:induction false} BalancePositive(env: Env, rows: Rows, i: nat)
    requires env.Lawful() && Parsed(env, rows).Ok? && i < |rows|
    ensures ListedBalances(env, rows)[i].amount > 0
  {
    hide Parsed, Entries, Addresses;
    EntryPositive(env, rows, Addresses(env, rows)[i]);
  }

  lemma {:induction false} NothingOwed(balances: Balances, claimed: set<nat>, n: nat)
    requires n <= |balances| && forall i | 0 <= i < n :: balances[i].amount > 0
    ensures Outstanding(balances, claimed, n) == 0 <==> forall i | 0 <= i < n :: i in claimed
  {
    if n > 0 {
      NothingOwed(balances, claimed, n - 1);
    }
  }

  function Below(n: nat): (r: set<nat>)
    ensures |r| == n && forall i: nat :: i in r <==> i < n
  {
    if n == 0 then {} else Below(n - 1) + {n - 1}
  }

  lemma {:induction false} IndexCount(attempts: seq<Attempt>)
    requires DistinctIndices(attempts)
    ensures |Indices(attempts)| == |attempts|
  {
    if attempts == [] {
      assert Indices(attempts) == {};
    } else {
      var init, last := attempts[..|attempts| - 1], attempts[|attempts| - 1];
      IndexCount(init);
      assert attempts == init + [last];
      IndicesGrow(init, last);
      LastIndexNew(init, last);
    }
  }

  /** All n indices are claimed exactly when n distinct ones below n are. */
  lemma {:induction false} AllClaimed(attempts: seq<Attempt>, n: nat)
    requires DistinctIndices(attempts)
    requires forall i | 0 <= i < |attempts| :: attempts[i].index < n
    ensures |attempts| == n <==> forall i: nat | i < n :: i in Indices(attempts)
  {
    IndexCount(attempts);
    assert Indices(attempts) <= Below(n);
    if |attempts| == n {
      SubsetFull(Indices(attempts), Below(n));
    }
    if forall i: nat | i < n :: i in Indices(attempts) {
      assert Below(n) == Indices(attempts);
    }
  }

  lemma {:induction false} AllPayBelow(balances: Balances, attempts: seq<Attempt>)
    requires AllPay(balances, attempts)
    ensures forall i | 0 <= i < |attempts| :: attempts[i].index < |balances|
  {
    forall i | 0 <= i < |attempts| ensures attempts[i].index < |balances| {
      assert Pays(balances, attempts[i]);
    }
  }

  /** Payments of listed balances, one per index, stay within the total and reach it when complete. */
  lemma {:induction false} SumWithinTotal(env: Env, rows: Rows, attempts: seq<Attempt>)
    requires env.Lawful() && Parsed(env, rows).Ok? && DistinctIndices(attempts)
    requires AllPay(ListedBalances(env, rows), attempts)
    ensures AllGood(env, rows)
    ensures SumAttempts(attempts) <= SumRows(env, rows)
    ensures SumAttempts(attempts) == SumRows(env, rows) <==> |attempts| == |rows|
  {
    hide Parsed, ListedBalances, Outstanding, SumAttempts, SumRows, AllGood, Indices;
    var balances := ListedBalances(env, rows);
    OutstandingIsSum(env, rows);
    PaymentsConserve(balances, attempts);
    forall i | 0 <= i < |rows| ensures balances[i].amount > 0 {
      BalancePositive(env, rows, i);
    }
    NothingOwed(balances, Indices(attempts), |rows|);
    AllPayBelow(balances, attempts);
    AllClaimed(attempts, |rows|);
  }

  lemma {:induction false} RootRead(env: Env, rows: Rows, root: Bytes)
    requires env.Lawful() && Parsed(env, rows).Ok?
    requires HexToBuffer(Parsed(env, rows).value.merkleRoot) == Some(root)
    ensures root == MerkleRoot(env.keccak, ListedBalances(env, rows))
  {
    hide Parsed, HexToBuffer, BufferToHex, MerkleRoot, ListedBalances;
    Unpack(env, rows);
    HexRoundTrip(MerkleRoot(env.keccak, ListedBalances(env, rows)));
  }

  /**
    Accepted claims with distinct indices never add up to more than the total of the input rows, and
    reach it exactly when every published entry has been claimed; or two strings hashed in the run
    collide.
   */
  lemma {:induction false} PayoutBound(
      env: Env, rows: Rows, root: Bytes, attempts: seq<Attempt>) returns (a: Bytes, b: Bytes)
    requires env.Lawful() && Parsed(env, rows).Ok?
    requires HexToBuffer(Parsed(env, rows).value.merkleRoot) == Some(root)
    requires AllValidClaims(env.keccak, root, attempts) && DistinctIndices(attempts)
    ensures AllGood(env, rows)
    ensures var hashed := BuildPreimages(env.keccak, ListedBalances(env, rows))
                          + AttemptPreimages(env.keccak, attempts);
            || (&& SumAttempts(attempts) <= SumRows(env, rows)
                && (SumAttempts(attempts) == SumRows(env, rows) <==> |attempts| == |rows|))
            || Collides(env.keccak, hashed, a, b)
  {
    hide Parsed, ListedBalances, BuildPreimages, AttemptPreimages, HexToBuffer, MerkleRoot, BufferToHex;
    hide ValidClaim, Outstanding, SumAttempts, SumRows, AllGood;
    a, b := [], [];
    var balances := ListedBalances(env, rows);
    var hashed := BuildPreimages(env.keccak, balances) + AttemptPreimages(env.keccak, attempts);
    RootRead(env, rows, root);
    OutstandingIsSum(env, rows);
    if CollisionFree(env.keccak, hashed) {
      ValidClaimsPay(env.keccak, balances, attempts, hashed);
      SumWithinTotal(env, rows, attempts);
    } else {
      a, b := FindCollision(env.keccak, hashed);
    }
  }

  /** No sequence of calls makes the contract pay more than the published total. */
  lemma {:induction false} RunPayout(env: Env, rows: Rows, root: Bytes, calls: seq<Call>) returns (a: Bytes, b: Bytes)
    requires env.Lawful() && Parsed(env, rows).Ok?
    requires HexToBuffer(Parsed(env, rows).value.merkleRoot) == Some(root)
    ensures AllGood(env, rows)
    ensures var payments := Run(env.keccak, root, calls).payments;
            var hashed := BuildPreimages(env.keccak, ListedBalances(env, rows))
                          + AttemptPreimages(env.keccak, payments);
            || SumAttempts(payments) <= SumRows(env, rows)
            || Collides(env.keccak, hashed, a, b)
  {
    hide Parsed, Run, BuildPreimages, AttemptPreimages, HexToBuffer, Claimed;
    PaidOnce(env.keccak, root, calls);
    a, b := PayoutBound(env, rows, root, Run(env.keccak, root, calls).payments);
  }

  // ---- Every published entry can be claimed ----

  ghost predicate PublishedAttempt(env: Env, claims: map<string, Claim>, attempt: Attempt) {
    Published(env, claims, attempt.index, attempt.account, attempt.amount, attempt.proof)
  }

  /** A published attempt is valid, and is what the tree gives out at its index. */
  lemma {:induction false} PublishedValid(env: Env, rows: Rows, root: Bytes, attempt: Attempt)
    requires env.Lawful() && Parsed(env, rows).Ok?
    requires HexToBuffer(Parsed(env, rows).value.merkleRoot) == Some(root)
    requires PublishedAttempt(env, Parsed(env, rows).value.claims, attempt)
    ensures ValidClaim(env.keccak, root, attempt) && Pays(ListedBalances(env, rows), attempt)
    ensures GivenOut(env.keccak, ListedBalances(env, rows), attempt.index, attempt.account, attempt.amount,
                     attempt.proof)
  {
    hide Parsed, ListedBalances, HexToBuffer, MerkleRoot, ProofFor, Published, Accepts;
    RootRead(env, rows, root);
    PublishedIsListed(env, rows, attempt.index, attempt.account, attempt.amount, attempt.proof);
    Completeness(env.keccak, ListedBalances(env, rows), attempt.index);
  }

  /** The collision-free half of `NeverBlocked`. */
  lemma {:induction false} StillPayable(
      env: Env, rows: Rows, root: Bytes, calls: seq<Call>, attempt: Attempt, hashed: set<Bytes>)
    requires env.Lawful() && Parsed(env, rows).Ok?
    requires HexToBuffer(Parsed(env, rows).value.merkleRoot) == Some(root)
    requires PublishedAttempt(env, Parsed(env, rows).value.claims, attempt)
    requires CollisionFree(env.keccak, hashed) && BuildPreimages(env.keccak, ListedBalances(env, rows)) <= hashed
    requires AttemptPreimages(env.keccak, Run(env.keccak, root, calls).payments) <= hashed
    ensures var s := Run(env.keccak, root, calls);
            attempt in s.payments || Outcome(env.keccak, root, s, Call(attempt, true)).Ok?
  {
    hide Parsed, ListedBalances, HexToBuffer, MerkleRoot, ProofFor, Published, ValidClaim, Run, Claimed, Mark;
    hide PublishedAttempt, BuildPreimages, AttemptPreimages, CollisionFree;
    var s := Run(env.keccak, root, calls);
    PaidOnce(env.keccak, root, calls);
    PublishedValid(env, rows, root, attempt);
    if Claimed(s.bitMap, attempt.index) {
      var i :| 0 <= i < |s.payments| && s.payments[i].index == attempt.index;
      RootRead(env, rows, root);
      PreimagesOfOne(env.keccak, s.payments, i);
      ValidClaimGivenOut(env.keccak, ListedBalances(env, rows), s.payments[i], hashed);
      assert s.payments[i] == attempt;
    }
  }

  /**
    Nobody can block an entry: whatever has been called so far, a published attempt has been paid,
    or claiming it now succeeds once the transfer does, or two strings hashed in the run collide.
   */
  lemma {:induction false} NeverBlocked(
      env: Env, rows: Rows, root: Bytes, calls: seq<Call>, attempt: Attempt) returns (a: Bytes, b: Bytes)
    requires env.Lawful() && Parsed(env, rows).Ok?
    requires HexToBuffer(Parsed(env, rows).value.merkleRoot) == Some(root)
    requires PublishedAttempt(env, Parsed(env, rows).value.claims, attempt)
    ensures var s := Run(env.keccak, root, calls);
            var hashed := BuildPreimages(env.keccak, ListedBalances(env, rows))
                          + AttemptPreimages(env.keccak, s.payments);
            || attempt in s.payments
            || Outcome(env.keccak, root, s, Call(attempt, true)).Ok?
            || Collides(env.keccak, hashed, a, b)
  {
    hide Parsed, ListedBalances, HexToBuffer, PublishedAttempt, BuildPreimages, AttemptPreimages, Run, Outcome;
    a, b := [], [];
    var hashed := BuildPreimages(env.keccak, ListedBalances(env, rows))
                  + AttemptPreimages(env.keccak, Run(env.keccak, root, calls).payments);
    if CollisionFree(env.keccak, hashed) {
      StillPayable(env, rows, root, calls, attempt, hashed);
    } else {
      a, b := FindCollision(env.keccak, hashed);
    }
  }

  /**
    Claiming every published entry once, in any order, succeeds each time and pays exactly the
    published total.
   */
  lemma {:induction false} EveryEntryPays(env: Env, rows: Rows, root: Bytes, attempts: seq<Attempt>, calls: seq<Call>)
    requires env.Lawful() && Parsed(env, rows).Ok?
    requires HexToBuffer(Parsed(env, rows).value.merkleRoot) == Some(root)
    requires |calls| == |attempts| == |rows| && DistinctIndices(attempts)
    requires forall i | 0 <= i < |calls| :: calls[i] == Call(attempts[i], true)
    requires forall i | 0 <= i < |attempts| :: PublishedAttempt(env, Parsed(env, rows).value.claims, attempts[i])
    ensures AllGood(env, rows)
    ensures Run(env.keccak, root, calls).payments == attempts
    ensures SumAttempts(attempts) == SumRows(env, rows)
    ensures Parsed(env, rows).value.tokenTotal == env.toHexString(SumAttempts(attempts))
  {
    hide Parsed, ListedBalances, HexToBuffer, MerkleRoot, GivenOut, PublishedAttempt, ValidClaim, Run;
    hide SumAttempts, SumRows;
    forall i | 0 <= i < |attempts|
      ensures ValidClaim(env.keccak, root, attempts[i]) && Pays(ListedBalances(env, rows), attempts[i])
    {
      PublishedValid(env, rows, root, attempts[i]);
    }
    assert [] + calls == calls;
    NoIndices();
    RunNothing(env.keccak, root);
    UnpaidClaimsPay(env.keccak, root, [], calls, attempts);
    SumWithinTotal(env, rows, attempts);
    Conservation(env, rows);
  }

  function AsHashes(items: seq<Bytes>): (r: seq<Hash>)
    requires AllHashSized(items)
    ensures r == items
  {
    seq(|items|, i requires 0 <= i < |items| => var item: Hash := items[i]; item)
  }

  /** Each index has a published attempt: the balance there, with its proof as `bytes32` values. */
  lemma {:induction false} EntryAttempt(env: Env, rows: Rows, i: nat) returns (attempt: Attempt)
    requires env.Lawful() && Parsed(env, rows).Ok? && i < |rows|
    ensures attempt.index == i && PublishedAttempt(env, Parsed(env, rows).value.claims, attempt)
  {
    hide Parsed, ListedBalances, ProofFor, Published;
    var balances := ListedBalances(env, rows);
    ProofHashSized(env.keccak, balances, i);
    attempt := Attempt(i, balances[i].account, balances[i].amount, AsHashes(ProofFor(env.keccak, balances, i)));
    PublishedIsListed(env, rows, i, attempt.account, attempt.amount, attempt.proof);
  }

  /** The first n entries, one attempt each. */
  lemma {:induction false} EntryAttempts(env: Env, rows: Rows, n: nat)
      returns (attempts: seq<Attempt>, calls: seq<Call>)
    requires env.Lawful() && Parsed(env, rows).Ok? && n <= |rows|
    ensures |attempts| == |calls| == n
    ensures forall i | 0 <= i < n ::
              && attempts[i].index == i && PublishedAttempt(env, Parsed(env, rows).value.claims, attempts[i])
              && calls[i] == Call(attempts[i], true)
  {
    hide Parsed, PublishedAttempt;
    attempts, calls := [], [];
    if n > 0 {
      attempts, calls := EntryAttempts(env, rows, n - 1);
      var last := EntryAttempt(env, rows, n - 1);
      attempts, calls := attempts + [last], calls + [Call(last, true)];
    }
  }

  /** For every accepted input there is such a run: one claim per entry, in index order, pays `tokenTotal`. */
  lemma {:induction false} TotalCanBePaid(env: Env, rows: Rows, root: Bytes)
      returns (attempts: seq<Attempt>, calls: seq<Call>)
    requires env.Lawful() && Parsed(env, rows).Ok?
    requires HexToBuffer(Parsed(env, rows).value.merkleRoot) == Some(root)
    ensures |attempts| == |calls| == |rows|
    ensures forall i | 0 <= i < |rows| ::
              && attempts[i].index == i && PublishedAttempt(env, Parsed(env, rows).value.claims, attempts[i])
              && calls[i] == Call(attempts[i], true)
    ensures Run(env.keccak, root, calls).payments == attempts
    ensures Parsed(env, rows).value.tokenTotal == env.toHexString(SumAttempts(attempts))
  {
    hide Parsed, PublishedAttempt, HexToBuffer, Run, SumAttempts;
    attempts, calls := EntryAttempts(env, rows, |rows|);
    EveryEntryPays(env, rows, root, attempts, calls);
  }

  // ---- Runs in which every entry is claimed ----

  /** A call that claims entry i, with a transfer that goes through. */
  ghost predicate ClaimsEntry(env: Env, claims: map<string, Claim>, call: Call, i: nat) {
    call.attempt.index == i && call.transferred && PublishedAttempt(env, claims, call.attempt)
  }

  ghost predicate EntryClaimed(env: Env, claims: map<string, Claim>, calls: seq<Call>, i: nat) {
    exists k | 0 <= k < |calls| :: ClaimsEntry(env, claims, calls[k], i)
  }

  /** Payments are only ever added. */
  lemma {:induction false} PaymentsGrow(keccak: Hasher, root: Bytes, calls: seq<Call>, k: nat)
    requires k <= |calls|
    ensures Run(keccak, root, calls[..k]).payments <= Run(keccak, root, calls).payments
  {
    hide Claimed, Mark, ValidClaim;
    if k == |calls| {
      assert calls[..k] == calls;
    } else {
      var init := calls[..|calls| - 1];
      assert init[..k] == calls[..k];
      PaymentsGrow(keccak, root, init, k);
    }
  }

  lemma {:induction false} PreimagesGrow(keccak: Hasher, first: seq<Attempt>, all: seq<Attempt>)
    requires first <= all
    ensures AttemptPreimages(keccak, first) <= AttemptPreimages(keccak, all)
    decreases |all|
  {
    hide VerifyPreimages;
    if first != all {
      PreimagesGrow(keccak, first, all[..|all| - 1]);
    }
  }

  /** Without a collision, a claimed entry has been paid by the end of the run. */
  lemma {:induction false} ClaimedEntryPaid(
      env: Env, rows: Rows, root: Bytes, calls: seq<Call>, i: nat, hashed: set<Bytes>)
    requires env.Lawful() && Parsed(env, rows).Ok?
    requires HexToBuffer(Parsed(env, rows).value.merkleRoot) == Some(root)
    requires EntryClaimed(env, Parsed(env, rows).value.claims, calls, i)
    requires CollisionFree(env.keccak, hashed) && BuildPreimages(env.keccak, ListedBalances(env, rows)) <= hashed
    requires AttemptPreimages(env.keccak, Run(env.keccak, root, calls).payments) <= hashed
    ensures i in Indices(Run(env.keccak, root, calls).payments)
  {
    hide Parsed, ListedBalances, HexToBuffer, PublishedAttempt, Claimed, Mark, ValidClaim, Run, BuildPreimages;
    hide AttemptPreimages, CollisionFree;
    var k :| 0 <= k < |calls| && ClaimsEntry(env, Parsed(env, rows).value.claims, calls[k], i);
    var attempt, paid := calls[k].attempt, Run(env.keccak, root, calls).payments;
    PaymentsGrow(env.keccak, root, calls, k);
    PreimagesGrow(env.keccak, Run(env.keccak, root, calls[..k]).payments, paid);
    StillPayable(env, rows, root, calls[..k], attempt, hashed);
    assert calls[..k + 1] == calls[..k] + [calls[k]] && calls[k] == Call(attempt, true);
    RunOneMore(env.keccak, root, calls[..k], calls[k]);
    PaymentsGrow(env.keccak, root, calls, k + 1);
    var soon := Run(env.keccak, root, calls[..k + 1]).payments;
    assert attempt in soon;
    var j :| 0 <= j < |soon| && soon[j] == attempt;
    assert paid[j].index as nat == i;
  }

  /**
    Any run that claims each entry at least once, in whatever order and with whatever other calls in
    between, ends up having paid exactly the published total; or two strings hashed in it collide.
   */
  lemma {:induction false} CompleteRunPays(env: Env, rows: Rows, root: Bytes, calls: seq<Call>)
      returns (a: Bytes, b: Bytes)
    requires env.Lawful() && Parsed(env, rows).Ok?
    requires HexToBuffer(Parsed(env, rows).value.merkleRoot) == Some(root)
    requires forall i: nat | i < |rows| :: EntryClaimed(env, Parsed(env, rows).value.claims, calls, i)
    ensures var payments := Run(env.keccak, root, calls).payments;
            var hashed := BuildPreimages(env.keccak, ListedBalances(env, rows))
                          + AttemptPreimages(env.keccak, payments);
            || (&& |payments| == |rows|
                && Parsed(env, rows).value.tokenTotal == env.toHexString(SumAttempts(payments)))
            || Collides(env.keccak, hashed, a, b)
  {
    hide Parsed, ListedBalances, HexToBuffer, EntryClaimed, Run, BuildPreimages, AttemptPreimages, Claimed, ValidClaim;
    hide SumAttempts, SumRows, Indices, ClaimOfRow, IndexedInOrder, GoodRow, MerkleRoot;
    a, b := [], [];
    var balances, payments := ListedBalances(env, rows), Run(env.keccak, root, calls).payments;
    var hashed := BuildPreimages(env.keccak, balances) + AttemptPreimages(env.keccak, payments);
    if CollisionFree(env.keccak, hashed) {
      forall i: nat | i < |rows| ensures i in Indices(payments) {
        ClaimedEntryPaid(env, rows, root, calls, i, hashed);
      }
      PaidOnce(env.keccak, root, calls);
      RootRead(env, rows, root);
      ValidClaimsPay(env.keccak, balances, payments, hashed);
      AllPayBelow(balances, payments);
      AllClaimed(payments, |rows|);
      SumWithinTotal(env, rows, payments);
      Conservation(env, rows);
    } else {
      a, b := FindCollision(env.keccak, hashed);
    }
  }
}
