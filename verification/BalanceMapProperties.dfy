/** What `parseBalanceMap` guarantees about the blob it publishes. */
module BalanceMapProperties {
  import opened Wrappers
  import opened Errors
  import opened Ordering
  import opened Buffers
  import opened MerkleTrees
  import opened BalanceTrees
  import opened BalanceMaps

  // ---- What a row says ----

  /** A row whose address is valid and whose amount parses to a positive number. */
  ghost predicate GoodRow(env: Env, row: Row) {
    && env.decode(row.address).Some?
    && env.bigNumber(row.earnings).Some?
    && env.bigNumber(row.earnings).value > 0
  }

  ghost function KeyOf(env: Env, row: Row): string
    requires GoodRow(env, row)
  {
    env.checksum(env.decode(row.address).value)
  }

  ghost function EntryOf(env: Env, row: Row): Entry
    requires GoodRow(env, row)
  {
    Entry(env.bigNumber(row.earnings).value, FlagsOf(row.reasons))
  }

  ghost predicate AllGood(env: Env, rows: seq<Row>) {
    forall i | 0 <= i < |rows| :: GoodRow(env, rows[i])
  }

  ghost function KeysOf(env: Env, rows: seq<Row>): (r: seq<string>)
    requires AllGood(env, rows)
    ensures |r| == |rows| && forall i | 0 <= i < |rows| :: r[i] == KeyOf(env, rows[i])
  {
    seq(|rows|, i requires 0 <= i < |rows| => KeyOf(env, rows[i]))
  }

  ghost predicate DistinctKeys(env: Env, rows: seq<Row>)
    requires AllGood(env, rows)
  {
    forall i, j | 0 <= i < j < |rows| :: KeyOf(env, rows[i]) != KeyOf(env, rows[j])
  }

  /** Every amount can be packed in 32 bytes. */
  ghost predicate AmountsFit(env: Env, rows: seq<Row>)
    requires AllGood(env, rows)
  {
    forall i | 0 <= i < |rows| :: env.bigNumber(rows[i].earnings).value < Pow256(WORD_LENGTH)
  }

  /** The entries are those of the rows, no more and no less. */
  ghost predicate Records(env: Env, rows: seq<Row>, memo: map<string, Entry>)
    requires AllGood(env, rows)
  {
    && (forall i | 0 <= i < |rows| :: MapsTo(memo, KeyOf(env, rows[i]), EntryOf(env, rows[i])))
    && (forall key | key in memo :: exists i :: 0 <= i < |rows| && KeyOf(env, rows[i]) == key)
  }

  // ---- Acceptance ----

  lemma {:induction false} CollectLast(env: Env, init: seq<Row>, last: Row, memo: map<string, Entry>)
    requires AllGood(env, init) && DistinctKeys(env, init) && Records(env, init, memo) && GoodRow(env, last)
    ensures AllGood(env, init + [last])
    ensures DistinctKeys(env, init + [last]) <==> KeyOf(env, last) !in memo
    ensures KeyOf(env, last) !in memo ==>
              Records(env, init + [last], memo[KeyOf(env, last) := EntryOf(env, last)])
  {
    hide GoodRow, KeyOf, EntryOf;
    var rows, key := init + [last], KeyOf(env, last);
    assert forall i | 0 <= i < |init| :: rows[i] == init[i];
    if key in memo {
      var i :| 0 <= i < |init| && KeyOf(env, init[i]) == key;
      assert KeyOf(env, rows[i]) == KeyOf(env, rows[|init|]);
    } else {
      forall i | 0 <= i < |init| ensures KeyOf(env, rows[i]) != key {
        assert MapsTo(memo, KeyOf(env, init[i]), EntryOf(env, init[i]));
      }
      var grown := memo[key := EntryOf(env, last)];
      forall i | 0 <= i < |rows| ensures MapsTo(grown, KeyOf(env, rows[i]), EntryOf(env, rows[i])) {
        assert i < |init| ==> MapsTo(memo, KeyOf(env, init[i]), EntryOf(env, init[i]));
      }
      forall k | k in grown ensures exists i :: 0 <= i < |rows| && KeyOf(env, rows[i]) == k {
        if k == key {
          assert KeyOf(env, rows[|init|]) == k;
        } else {
          var i :| 0 <= i < |init| && KeyOf(env, init[i]) == k;
          assert KeyOf(env, rows[i]) == k;
        }
      }
    }
  }

  /** Collecting succeeds exactly on good rows with distinct addresses, and records each of them. */
  lemma {:induction false} CollectExact(env: Env, rows: seq<Row>)
    ensures Collect(env, rows).Ok? <==> AllGood(env, rows) && DistinctKeys(env, rows)
    ensures Collect(env, rows).Ok? ==> Records(env, rows, Collect(env, rows).value)
  {
    if rows != [] {
      var init, last := rows[..|rows| - 1], rows[|rows| - 1];
      CollectExact(env, init);
      assert rows == init + [last];
      assert AllGood(env, rows) <==> AllGood(env, init) && GoodRow(env, last);
      if Collect(env, init).Ok? && GoodRow(env, last) {
        CollectLast(env, init, last, Collect(env, init).value);
      }
    }
  }

  lemma {:induction false} RecordsFit(env: Env, rows: seq<Row>, memo: map<string, Entry>)
    requires AllGood(env, rows) && Records(env, rows, memo)
    ensures AllFit(memo) <==> AmountsFit(env, rows)
  {
    Uint256Width();
    if AllFit(memo) {
      forall i | 0 <= i < |rows| ensures env.bigNumber(rows[i].earnings).value < Pow256(WORD_LENGTH) {
        assert MapsTo(memo, KeyOf(env, rows[i]), EntryOf(env, rows[i]));
      }
    }
    if AmountsFit(env, rows) {
      forall key | key in memo ensures FitsUint256(memo[key].amount) {
        var i :| 0 <= i < |rows| && KeyOf(env, rows[i]) == key;
        assert MapsTo(memo, KeyOf(env, rows[i]), EntryOf(env, rows[i]));
      }
    }
  }

  lemma {:induction false} CollectErrors(env: Env, rows: seq<Row>)
    ensures Collect(env, rows).Err? ==>
              Collect(env, rows).error != EmptyTree && Collect(env, rows).error != ValueOutOfRange
  {
    if rows != [] {
      CollectErrors(env, rows[..|rows| - 1]);
    }
  }

  /**
    `parseBalanceMap` returns normally exactly when there is a row, every address is valid, no two
    rows name the same account, and every amount is a positive uint256. The exception for an empty
    tree is raised for the empty input alone.
   */
  lemma {:induction false} Acceptance(env: Env, rows: Rows)
    requires env.Lawful()
    ensures Parsed(env, rows).Ok? <==>
              rows != [] && AllGood(env, rows) && DistinctKeys(env, rows) && AmountsFit(env, rows)
    ensures Parsed(env, rows) == Err(EmptyTree) <==> rows == []
    ensures Parsed(env, rows) == Err(ValueOutOfRange) <==>
              AllGood(env, rows) && DistinctKeys(env, rows) && !AmountsFit(env, rows)
  {
    hide MerkleRoot, BalancesOf, ClaimsUpTo, TotalUpTo, SortedKeys, BufferToHex;
    CollectExact(env, rows);
    CollectErrors(env, rows);
    var collected := Collect(env, rows);
    if collected.Ok? {
      CollectCanonical(env, rows);
      RecordsFit(env, rows, collected.value);
      SortedKeysOrdered(collected.value.Keys);
    }
  }

  /** The exception a row deserves after the accepted rows `before`. */
  ghost predicate Blames(env: Env, before: seq<Row>, row: Row, error: Error)
    requires AllGood(env, before)
  {
    var account := env.decode(row.address);
    if account.None? then
      error == InvalidAddress(row.address)
    else if env.checksum(account.value) in KeysOf(env, before) then
      error == DuplicateAddress(env.checksum(account.value))
    else
      && !GoodRow(env, row)
      && error == if env.bigNumber(row.earnings).None?
                  then InvalidNumber(row.earnings) else InvalidAmount(row.address)
  }

  lemma {:induction false} KeysRecorded(env: Env, rows: seq<Row>, memo: map<string, Entry>)
    requires AllGood(env, rows) && Records(env, rows, memo)
    ensures ListsExactly(KeysOf(env, rows), memo.Keys)
  {
    hide GoodRow, KeyOf, EntryOf;
    var keys := KeysOf(env, rows);
    forall key ensures key in keys <==> key in memo {
      if key in keys {
        var i :| 0 <= i < |rows| && keys[i] == key;
        assert MapsTo(memo, KeyOf(env, rows[i]), EntryOf(env, rows[i]));
      }
      if key in memo {
        var i :| 0 <= i < |rows| && KeyOf(env, rows[i]) == key;
        assert keys[i] == key;
      }
    }
  }

  /** A rejected input is blamed on its first row at fault, and for that row's first fault. */
  lemma {:induction false} FirstBadRow(env: Env, rows: seq<Row>) returns (n: nat)
    requires Collect(env, rows).Err?
    ensures n < |rows| && AllGood(env, rows[..n]) && DistinctKeys(env, rows[..n])
    ensures Blames(env, rows[..n], rows[n], Collect(env, rows).error)
  {
    n := |rows| - 1;
    CollectExact(env, rows[..n]);
    if Collect(env, rows[..n]).Err? {
      var m := FirstBadRow(env, rows[..n]);
      assert rows[..n][..m] == rows[..m];
      n := m;
    } else {
      KeysRecorded(env, rows[..n], Collect(env, rows[..n]).value);
    }
  }

  /** Row n is the first at fault, and `error` names its first fault. */
  ghost predicate BlamesAt(env: Env, rows: seq<Row>, n: nat, error: Error) {
    && n < |rows| && AllGood(env, rows[..n]) && DistinctKeys(env, rows[..n])
    && Blames(env, rows[..n], rows[n], error)
  }

  lemma {:induction false} BlameRaises(
      env: Env, before: seq<Row>, memo: map<string, Entry>, row: Row, error: Error)
    requires AllGood(env, before) && Records(env, before, memo) && Blames(env, before, row, error)
    ensures AddRow(env, memo, row) == Err(error)
  {
    hide KeyOf, Records, AllGood, KeysOf, FlagsOf;
    KeysRecorded(env, before, memo);
    assert forall key :: key in KeysOf(env, before) <==> key in memo;
  }

  lemma {:induction false} CollectStep(env: Env, rows: seq<Row>)
    requires rows != [] && Collect(env, rows[..|rows| - 1]).Ok?
    ensures Collect(env, rows) == AddRow(env, Collect(env, rows[..|rows| - 1]).value, rows[|rows| - 1])
  {
    hide AddRow;
  }

  lemma {:induction false} BlamedRowRaises(env: Env, rows: seq<Row>, n: nat, error: Error)
    requires BlamesAt(env, rows, n, error)
    ensures Collect(env, rows) == Err(error)
  {
    hide Collect, AddRow, Blames, KeyOf, GoodRow, AllGood, DistinctKeys, Records;
    var before := rows[..n];
    CollectExact(env, before);
    BlameRaises(env, before, Collect(env, before).value, rows[n], error);
    assert rows[..n + 1][..n] == before;
    CollectStep(env, rows[..n + 1]);
    FirstErrorWins(env, rows, n + 1);
  }

  /** Collecting raises exactly what the first row at fault deserves. */
  lemma {:induction false} FaultExact(env: Env, rows: seq<Row>, error: Error)
    ensures Collect(env, rows) == Err(error) <==> exists n: nat :: BlamesAt(env, rows, n, error)
  {
    hide Collect, Blames, GoodRow, KeyOf;
    if Collect(env, rows) == Err(error) {
      var n := FirstBadRow(env, rows);
      assert BlamesAt(env, rows, n, error);
    }
    if n: nat :| BlamesAt(env, rows, n, error) {
      BlamedRowRaises(env, rows, n, error);
    }
  }

  /** What a rejected input is blamed on. */
  ghost predicate Rejects(env: Env, rows: seq<Row>, error: Error) {
    || (rows == [] && error == EmptyTree)
    || (AllGood(env, rows) && DistinctKeys(env, rows) && !AmountsFit(env, rows) && error == ValueOutOfRange)
    || exists n: nat :: BlamesAt(env, rows, n, error)
  }

  lemma {:induction false} RejectedCollect(env: Env, rows: Rows, error: Error)
    requires env.Lawful() && Collect(env, rows).Err?
    ensures Parsed(env, rows) == Err(error) <==> Collect(env, rows) == Err(error)
  {
    hide Collect, Publish;
  }

  lemma {:induction false} PublishErrors(env: Env, rows: Rows)
    requires env.Lawful() && Collect(env, rows).Ok? && Parsed(env, rows).Err?
    ensures Parsed(env, rows).error == EmptyTree || Parsed(env, rows).error == ValueOutOfRange
  {
    hide Collect, MerkleRoot, BalancesOf, ClaimsUpTo, TotalUpTo, SortedKeys, BufferToHex;
  }

  /** The exception raised is exactly the one deserved. */
  lemma {:induction false} RejectionExact(env: Env, rows: Rows, error: Error)
    requires env.Lawful()
    ensures Parsed(env, rows) == Err(error) <==> Rejects(env, rows, error)
  {
    hide Collect, Parsed, AllGood, DistinctKeys, AmountsFit, Records, BlamesAt;
    Acceptance(env, rows);
    CollectExact(env, rows);
    CollectErrors(env, rows);
    FaultExact(env, rows, error);
    if Collect(env, rows).Err? {
      RejectedCollect(env, rows, error);
    } else if Parsed(env, rows).Err? {
      PublishErrors(env, rows);
    }
  }

  // ---- What the blob holds ----

  lemma {:induction false} Succeeded(env: Env, rows: Rows)
    requires env.Lawful() && Parsed(env, rows).Ok?
    ensures Collect(env, rows).Ok?
    ensures var memo := Collect(env, rows).value;
            var addresses := SortedKeys(memo.Keys);
            && StrictlySorted(StringLeq, addresses) && ListsExactly(addresses, memo.Keys)
            && |addresses| == |rows| > 0 && Listed(env, memo, addresses) && AllFit(memo)
  {
    hide MerkleRoot, ClaimsUpTo, TotalUpTo, SortedKeys, BufferToHex, StringLeq, Collect, BalancesOf;
    CollectCanonical(env, rows);
    var memo := Collect(env, rows).value;
    SortedKeysOrdered(memo.Keys);
    var addresses := SortedKeys(memo.Keys);
    forall i | 0 <= i < |addresses| ensures addresses[i] in memo {
      assert addresses[i] in addresses;
    }
  }

  /** The entries behind an accepted input. */
  ghost function Entries(env: Env, rows: Rows): map<string, Entry>
    requires env.Lawful() && Parsed(env, rows).Ok?
  {
    hide Parsed;
    Succeeded(env, rows);
    Collect(env, rows).value
  }

  /** Its addresses in published order. */
  ghost function Addresses(env: Env, rows: Rows): (r: seq<string>)
    requires env.Lawful() && Parsed(env, rows).Ok?
    ensures StrictlySorted(StringLeq, r) && ListsExactly(r, Entries(env, rows).Keys) && |r| == |rows| > 0
    ensures Listed(env, Entries(env, rows), r) && AllFit(Entries(env, rows))
  {
    hide Parsed, Listed, AllFit, StrictlySorted, ListsExactly, SortedKeys;
    Succeeded(env, rows);
    SortedKeys(Entries(env, rows).Keys)
  }

  /** The balance list behind an accepted input, in index order. */
  ghost function ListedBalances(env: Env, rows: Rows): (r: Balances)
    requires env.Lawful() && Parsed(env, rows).Ok?
    ensures |r| == |rows| > 0
  {
    hide Parsed, Entries, Addresses;
    BalancesOf(env, Entries(env, rows), Addresses(env, rows))
  }

  /** A successful run in terms of its entries, addresses and balances. */
  lemma {:induction false} Unpack(env: Env, rows: Rows)
    requires env.Lawful() && Parsed(env, rows).Ok?
    ensures rows != [] && AllGood(env, rows) && DistinctKeys(env, rows)
    ensures Records(env, rows, Entries(env, rows))
    ensures var memo, addresses := Entries(env, rows), Addresses(env, rows);
            var balances, info := ListedBalances(env, rows), Parsed(env, rows).value;
            && info.merkleRoot == BufferToHex(MerkleRoot(env.keccak, balances))
            && info.tokenTotal == env.toHexString(TotalUpTo(memo, addresses, |addresses|))
            && info.claims == ClaimsUpTo(env, memo, addresses, balances, |addresses|)
  {
    hide MerkleRoot, ClaimsUpTo, TotalUpTo, SortedKeys, BufferToHex, StringLeq, Collect, BalancesOf;
    CollectExact(env, rows);
    Succeeded(env, rows);
  }

  lemma {:induction false} NumberedGrow(claims: map<string, Claim>, addresses: seq<string>, n: nat, claim: Claim)
    requires n < |addresses| && Distinct(addresses) && |claims| == n == claim.index
    requires forall key | key in claims :: claims[key].index < n && addresses[claims[key].index] == key
    ensures var grown := claims[addresses[n] := claim];
            && |grown| == n + 1
            && forall key | key in grown :: grown[key].index < n + 1 && addresses[grown[key].index] == key
  {
    var last := addresses[n];
    assert last !in claims;
    assert claims[last := claim].Keys == claims.Keys + {last};
  }

  lemma {:induction false} ClaimsNumbered(
      env: Env, memo: map<string, Entry>, addresses: seq<string>, balances: Balances, n: nat)
    requires n <= |addresses| == |balances| && Distinct(addresses)
    requires forall i | 0 <= i < |addresses| :: addresses[i] in memo
    ensures var claims := ClaimsUpTo(env, memo, addresses, balances, n);
            && |claims| == n
            && forall key | key in claims :: claims[key].index < n && addresses[claims[key].index] == key
  {
    hide ProofFor, HexAll, Distinct;
    if n > 0 {
      ClaimsNumbered(env, memo, addresses, balances, n - 1);
      NumberedGrow(ClaimsUpTo(env, memo, addresses, balances, n - 1), addresses, n - 1,
                   ClaimAt(env, memo, addresses, balances, n - 1));
    }
  }

  lemma {:induction false} ClaimsHold(
      env: Env, memo: map<string, Entry>, addresses: seq<string>, balances: Balances, n: nat, i: nat)
    requires i < n <= |addresses| == |balances| && Distinct(addresses)
    requires forall i | 0 <= i < |addresses| :: addresses[i] in memo
    ensures MapsTo(ClaimsUpTo(env, memo, addresses, balances, n), addresses[i],
                   ClaimAt(env, memo, addresses, balances, i))
  {
    hide ClaimAt;
    if i < n - 1 {
      ClaimsHold(env, memo, addresses, balances, n - 1, i);
      assert addresses[i] != addresses[n - 1];
    }
  }

  ghost function SumRows(env: Env, rows: seq<Row>): nat
    requires AllGood(env, rows)
  {
    if rows == [] then 0 else SumRows(env, rows[..|rows| - 1]) + EntryOf(env, rows[|rows| - 1]).amount
  }

  // ---- Sums do not depend on order ----

  function Amounts(memo: map<string, Entry>): (r: map<string, int>)
    ensures r.Keys == memo.Keys
  {
    map key | key in memo :: memo[key].amount
  }

  function AmountRead(env: Env, claim: Claim): int {
    var amount := env.bigNumber(claim.amount);
    if amount.Some? then amount.value else 0
  }

  /** What each claim's printed amount says. */
  function ClaimAmounts(env: Env, claims: map<string, Claim>): (r: map<string, int>)
    ensures r.Keys == claims.Keys
  {
    map key | key in claims :: AmountRead(env, claims[key])
  }

  ghost function SumOver(amounts: map<string, int>, keys: set<string>): int
    requires keys <= amounts.Keys
  {
    if keys == {} then
      0
    else
      var key :| key in keys;
      amounts[key] + SumOver(amounts, keys - {key})
  }

  lemma {:induction false} SumOverRemove(amounts: map<string, int>, keys: set<string>, key: string)
    requires keys <= amounts.Keys && key in keys
    ensures SumOver(amounts, keys) == amounts[key] + SumOver(amounts, keys - {key})
    decreases |keys|
  {
    var first :| first in keys && SumOver(amounts, keys) == amounts[first] + SumOver(amounts, keys - {first});
    if first != key {
      SumOverRemove(amounts, keys - {first}, key);
      SumOverRemove(amounts, keys - {key}, first);
      assert keys - {first} - {key} == keys - {key} - {first};
    }
  }

  lemma {:induction false} TotalIsSumOver(memo: map<string, Entry>, addresses: seq<string>, n: nat, keys: set<string>)
    requires n <= |addresses| && Distinct(addresses)
    requires forall i | 0 <= i < |addresses| :: addresses[i] in memo
    requires ListsExactly(addresses[..n], keys)
    ensures keys <= memo.Keys && TotalUpTo(memo, addresses, n) == SumOver(Amounts(memo), keys)
  {
    if n > 0 {
      var last := addresses[n - 1];
      assert addresses[..n] == addresses[..n - 1] + [last];
      assert forall i | 0 <= i < n - 1 :: addresses[i] != last;
      TotalIsSumOver(memo, addresses, n - 1, keys - {last});
      SumOverRemove(Amounts(memo), keys, last);
    } else {
      assert forall key | key in keys :: key in addresses[..n];
      assert keys == {};
    }
  }

  lemma {:induction false} SumRowsIsTotal(env: Env, rows: seq<Row>, memo: map<string, Entry>, n: nat)
    requires AllGood(env, rows) && Records(env, rows, memo) && n <= |rows|
    ensures forall i | 0 <= i < |rows| :: KeysOf(env, rows)[i] in memo
    ensures SumRows(env, rows[..n]) == TotalUpTo(memo, KeysOf(env, rows), n)
  {
    hide GoodRow, KeyOf, EntryOf;
    forall i | 0 <= i < |rows| ensures KeysOf(env, rows)[i] in memo {
      assert MapsTo(memo, KeyOf(env, rows[i]), EntryOf(env, rows[i]));
    }
    if n > 0 {
      SumRowsIsTotal(env, rows, memo, n - 1);
      assert rows[..n][..n - 1] == rows[..n - 1];
      assert MapsTo(memo, KeyOf(env, rows[n - 1]), EntryOf(env, rows[n - 1]));
    }
  }

  lemma {:induction false} TotalIsSum(env: Env, rows: Rows, memo: map<string, Entry>, addresses: seq<string>)
    requires AllGood(env, rows) && DistinctKeys(env, rows) && Records(env, rows, memo)
    requires Distinct(addresses) && ListsExactly(addresses, memo.Keys)
    ensures forall i | 0 <= i < |addresses| :: addresses[i] in memo
    ensures TotalUpTo(memo, addresses, |addresses|) == SumRows(env, rows) == SumOver(Amounts(memo), memo.Keys)
  {
    hide GoodRow, KeyOf, EntryOf, TotalUpTo, SumRows, SumOver;
    var keys := KeysOf(env, rows);
    assert forall i | 0 <= i < |addresses| :: addresses[i] in addresses;
    assert addresses[..|addresses|] == addresses && keys[..|keys|] == keys && rows[..|rows|] == rows;
    SumRowsIsTotal(env, rows, memo, |rows|);
    KeysRecorded(env, rows, memo);
    TotalIsSumOver(memo, addresses, |addresses|, memo.Keys);
    TotalIsSumOver(memo, keys, |keys|, memo.Keys);
  }

  // ---- Conservation ----

  /** One row's claim, under its checksummed address: its amount as printed, and the flags its reasons call for. */
  ghost predicate ClaimOfRow(env: Env, row: Row, claims: map<string, Claim>)
    requires GoodRow(env, row)
  {
    var key := env.checksum(env.decode(row.address).value);
    && key in claims
    && claims[key].amount == env.toHexString(env.bigNumber(row.earnings).value)
    && FlagsSay(row.reasons, claims[key].flags)
  }

  ghost predicate HasIndex(claims: map<string, Claim>, i: nat) {
    exists key | key in claims :: claims[key].index == i
  }

  /** Indices number the addresses 0, 1, ... in increasing order. */
  ghost predicate IndexedInOrder(claims: map<string, Claim>) {
    && (forall key | key in claims :: claims[key].index < |claims|)
    && (forall k, l | k in claims && l in claims ::
          claims[k].index <= claims[l].index <==> StringLeq(k, l))
    && (forall i | 0 <= i < |claims| :: HasIndex(claims, i))
  }

  lemma {:induction false} ClaimAmountRead(
      env: Env, memo: map<string, Entry>, addresses: seq<string>, balances: Balances, i: nat)
    requires env.Lawful() && i < |addresses| == |balances| && Distinct(addresses)
    requires forall i | 0 <= i < |addresses| :: addresses[i] in memo
    ensures var claims := ClaimsUpTo(env, memo, addresses, balances, |addresses|);
            addresses[i] in claims && AmountRead(env, claims[addresses[i]]) == memo[addresses[i]].amount
  {
    hide ProofFor, HexAll, ClaimsUpTo, Distinct;
    ClaimsHold(env, memo, addresses, balances, |addresses|, i);
  }

  /** The printed amounts read back as the entries' amounts. */
  lemma {:induction false} ClaimAmountsAreEntries(
      env: Env, memo: map<string, Entry>, addresses: seq<string>, balances: Balances)
    requires env.Lawful() && |addresses| == |balances| && Distinct(addresses)
    requires ListsExactly(addresses, memo.Keys)
    requires forall i | 0 <= i < |addresses| :: addresses[i] in memo
    ensures ClaimAmounts(env, ClaimsUpTo(env, memo, addresses, balances, |addresses|)) == Amounts(memo)
  {
    hide ClaimsUpTo, Distinct, AmountRead;
    var claims := ClaimsUpTo(env, memo, addresses, balances, |addresses|);
    ClaimsNumbered(env, memo, addresses, balances, |addresses|);
    forall key | key in memo ensures key in claims && AmountRead(env, claims[key]) == memo[key].amount {
      var i :| 0 <= i < |addresses| && addresses[i] == key;
      ClaimAmountRead(env, memo, addresses, balances, i);
    }
    forall key | key in claims ensures key in memo {
      assert addresses[claims[key].index] == key;
    }
  }

  lemma {:induction false} OrderFollowsPosition(addresses: seq<string>, i: nat, j: nat)
    requires StrictlySorted(StringLeq, addresses) && i < |addresses| && j < |addresses|
    ensures i <= j <==> StringLeq(addresses[i], addresses[j])
  {
    hide StringLeq;
    StringOrder();
    assert StringLeq(addresses[i], addresses[i]);
  }

  lemma {:induction false} ClaimsIndexed(env: Env, memo: map<string, Entry>, addresses: seq<string>, balances: Balances,
                      claims: map<string, Claim>)
    requires |addresses| == |balances| && StrictlySorted(StringLeq, addresses)
    requires forall i | 0 <= i < |addresses| :: addresses[i] in memo
    requires claims == ClaimsUpTo(env, memo, addresses, balances, |addresses|)
    ensures IndexedInOrder(claims)
  {
    hide StringLeq, ProofFor, HexAll, ClaimsUpTo;
    StringOrder();
    ClaimsNumbered(env, memo, addresses, balances, |addresses|);
    forall i | 0 <= i < |claims| ensures HasIndex(claims, i) {
      ClaimsHold(env, memo, addresses, balances, |addresses|, i);
    }
    forall k, l | k in claims && l in claims
      ensures claims[k].index <= claims[l].index <==> StringLeq(k, l)
    {
      OrderFollowsPosition(addresses, claims[k].index, claims[l].index);
    }
  }

  lemma {:induction false} RowClaimed(
      env: Env, memo: map<string, Entry>, addresses: seq<string>, balances: Balances, row: Row)
    requires |addresses| == |balances| && Distinct(addresses) && ListsExactly(addresses, memo.Keys)
    requires forall i | 0 <= i < |addresses| :: addresses[i] in memo
    requires GoodRow(env, row) && MapsTo(memo, KeyOf(env, row), EntryOf(env, row))
    ensures ClaimOfRow(env, row, ClaimsUpTo(env, memo, addresses, balances, |addresses|))
  {
    hide ProofFor, HexAll, FlagsOf, FlagsSay, ClaimsUpTo, Distinct;
    var i :| 0 <= i < |addresses| && addresses[i] == KeyOf(env, row);
    FlagsExact(row.reasons);
    ClaimsHold(env, memo, addresses, balances, |addresses|, i);
  }

  /**
    One claim per row with that row's amount and flags, indices a bijection onto 0..n-1 in address
    order, and a total that is both the sum over the claims and the sum over the input.
   */
  lemma {:induction false} Conservation(env: Env, rows: Rows)
    requires env.Lawful() && Parsed(env, rows).Ok?
    ensures var info := Parsed(env, rows).value;
            && |info.claims| == |rows|
            && (forall i | 0 <= i < |rows| :: GoodRow(env, rows[i]) && ClaimOfRow(env, rows[i], info.claims))
            && IndexedInOrder(info.claims)
            && AllGood(env, rows)
            && info.tokenTotal == env.toHexString(SumRows(env, rows))
            && SumRows(env, rows) == SumOver(ClaimAmounts(env, info.claims), info.claims.Keys)
  {
    hide StringLeq, ProofFor, HexAll, Parsed, MerkleRoot, BufferToHex, Entries, Addresses, ListedBalances;
    hide SumOver, Amounts, ClaimAmounts, GoodRow, KeyOf, EntryOf, ClaimOfRow, IndexedInOrder, SumRows, ClaimsUpTo;
    hide TotalUpTo, Listed, AllFit;
    Unpack(env, rows);
    var memo, addresses, balances := Entries(env, rows), Addresses(env, rows), ListedBalances(env, rows);
    var claims := Parsed(env, rows).value.claims;
    ClaimsNumbered(env, memo, addresses, balances, |addresses|);
    forall i | 0 <= i < |rows| ensures ClaimOfRow(env, rows[i], claims) {
      RowClaimed(env, memo, addresses, balances, rows[i]);
    }
    ClaimsIndexed(env, memo, addresses, balances, claims);
    TotalIsSum(env, rows, memo, addresses);
    ClaimAmountsAreEntries(env, memo, addresses, balances);
  }
}
