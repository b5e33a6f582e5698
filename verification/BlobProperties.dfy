/**
  The published blob as a whole: it does not depend on row order, it is enough to rebuild the tree
  and itself, and its root pays out what it lists and nothing else.
 */
module BlobProperties {
  import opened Wrappers
  import opened Ordering
  import opened Buffers
  import opened Hashing
  import opened MerkleTrees
  import opened BalanceTrees
  import opened BalanceMaps
  import opened BalanceProperties
  import opened BalanceMapProperties

  // ---- Row order ----

  lemma {:induction false} RecordsIncluded(
      env: Env, c: seq<Row>, d: seq<Row>, m: map<string, Entry>, n: map<string, Entry>)
    requires AllGood(env, c) && AllGood(env, d) && SameMembers(c, d)
    requires Records(env, c, m) && Records(env, d, n)
    ensures forall key | key in m :: key in n && n[key] == m[key]
  {
    hide GoodRow, KeyOf, EntryOf;
    forall key | key in m ensures key in n && n[key] == m[key] {
      var i :| 0 <= i < |c| && KeyOf(env, c[i]) == key;
      assert c[i] in d;
      var j :| 0 <= j < |d| && d[j] == c[i];
      assert MapsTo(m, KeyOf(env, c[i]), EntryOf(env, c[i]));
      assert MapsTo(n, KeyOf(env, d[j]), EntryOf(env, d[j]));
    }
  }

  lemma {:induction false} RecordsUnique(
      env: Env, c: seq<Row>, d: seq<Row>, m: map<string, Entry>, n: map<string, Entry>)
    requires AllGood(env, c) && AllGood(env, d) && SameMembers(c, d)
    requires Records(env, c, m) && Records(env, d, n)
    ensures m == n
  {
    hide GoodRow, KeyOf, EntryOf;
    RecordsIncluded(env, c, d, m, n);
    RecordsIncluded(env, d, c, n, m);
  }

  lemma {:induction false} SharedKey(env: Env, c: seq<Row>, d: seq<Row>, key: string)
    requires AllGood(env, c) && AllGood(env, d) && SameMembers(c, d)
    ensures key in KeysOf(env, c) ==> key in KeysOf(env, d)
  {
    hide GoodRow, KeyOf;
    if key in KeysOf(env, c) {
      var i :| 0 <= i < |c| && KeysOf(env, c)[i] == key;
      assert c[i] in d;
      var j :| 0 <= j < |d| && d[j] == c[i];
      assert KeysOf(env, d)[j] == key;
    }
  }

  lemma {:induction false} KeysStayDistinct(env: Env, c: seq<Row>, d: seq<Row>)
    requires AllGood(env, c) && SameMembers(c, d) && |c| == |d| && DistinctKeys(env, c)
    ensures AllGood(env, d) && DistinctKeys(env, d)
  {
    hide GoodRow, KeyOf;
    assert AllGood(env, d) by {
      forall i | 0 <= i < |d| ensures GoodRow(env, d[i]) {
        assert d[i] in c;
      }
    }
    var cs, ds := KeysOf(env, c), KeysOf(env, d);
    forall key ensures key in cs <==> key in ds {
      SharedKey(env, c, d, key);
      SharedKey(env, d, c, key);
    }
    assert (set x | x in cs) == (set x | x in ds);
    assert Distinct(cs);
    DistinctIffFull(cs);
    DistinctIffFull(ds);
    forall i, j | 0 <= i < j < |d| ensures KeyOf(env, d[i]) != KeyOf(env, d[j]) {
      assert ds[i] != ds[j];
    }
  }

  lemma {:induction false} ReorderAccepted(env: Env, c: Rows, d: Rows)
    requires env.Lawful() && SameMembers(c, d) && |c| == |d| && Parsed(env, c).Ok?
    ensures Parsed(env, d) == Parsed(env, c)
  {
    hide Publish, GoodRow, KeyOf, EntryOf;
    Acceptance(env, c);
    KeysStayDistinct(env, c, d);
    CollectExact(env, c);
    CollectExact(env, d);
    RecordsUnique(env, c, d, Collect(env, c).value, Collect(env, d).value);
  }

  /** Permuting the rows changes neither whether they are accepted nor anything that is published. */
  lemma {:induction false} RowOrderIndependence(env: Env, c: Rows, d: Rows)
    requires env.Lawful() && multiset(c) == multiset(d)
    ensures Parsed(env, c).Ok? <==> Parsed(env, d).Ok?
    ensures Parsed(env, c).Ok? ==> Parsed(env, c) == Parsed(env, d)
  {
    hide Parsed;
    MultisetMembers(c, d);
    if Parsed(env, c).Ok? {
      ReorderAccepted(env, c, d);
    }
    if Parsed(env, d).Ok? {
      ReorderAccepted(env, d, c);
    }
  }

  // ---- The blob is enough to rebuild the tree ----

  ghost predicate ClaimRead(env: Env, key: string, claim: Claim, balances: Balances) {
    && claim.index < |balances|
    && env.decode(key) == Some(balances[claim.index].account)
    && env.bigNumber(claim.amount) == Some(balances[claim.index].amount)
  }

  /** A list read off the claims: at each claim's index, its decoded account and parsed amount. */
  ghost predicate ReadOff(env: Env, claims: map<string, Claim>, balances: Balances) {
    && |balances| == |claims|
    && forall key | key in claims :: ClaimRead(env, key, claims[key], balances)
  }

  /** The entry under an account's checksummed address carries that balance's index and amount. */
  ghost predicate ClaimedAs(env: Env, claims: map<string, Claim>, balance: Balance, i: nat) {
    var key := env.checksum(balance.account);
    && key in claims && claims[key].index == i
    && claims[key].amount == env.toHexString(balance.amount)
  }

  lemma {:induction false} ClaimMatches(
      env: Env, memo: map<string, Entry>, addresses: seq<string>, balances: Balances, i: nat)
    requires env.Lawful() && Listed(env, memo, addresses) && AllFit(memo) && Distinct(addresses)
    requires balances == BalancesOf(env, memo, addresses) && i < |addresses|
    ensures var claims, key := ClaimsUpTo(env, memo, addresses, balances, |addresses|), addresses[i];
            && key in claims && claims[key].index == i
            && claims[key].proof == HexAll(ProofFor(env.keccak, balances, i))
            && ClaimRead(env, key, claims[key], balances)
            && ClaimedAs(env, claims, balances[i], i)
  {
    hide ProofFor, HexAll;
    ClaimsHold(env, memo, addresses, balances, |addresses|, i);
  }

  lemma {:induction false} ClaimsMatchEntries(
      env: Env, memo: map<string, Entry>, addresses: seq<string>, balances: Balances)
    requires env.Lawful() && Listed(env, memo, addresses) && AllFit(memo) && Distinct(addresses)
    requires balances == BalancesOf(env, memo, addresses)
    ensures var claims := ClaimsUpTo(env, memo, addresses, balances, |addresses|);
            && ReadOff(env, claims, balances)
            && (forall key | key in claims ::
                  claims[key].proof == HexAll(ProofFor(env.keccak, balances, claims[key].index)))
            && (forall i | 0 <= i < |balances| :: ClaimedAs(env, claims, balances[i], i))
  {
    hide ProofFor, HexAll, BalancesOf, ClaimsUpTo, ClaimRead, ClaimedAs, Distinct;
    ClaimsNumbered(env, memo, addresses, balances, |addresses|);
    forall i | 0 <= i < |addresses|
      ensures var claims := ClaimsUpTo(env, memo, addresses, balances, |addresses|);
              && addresses[i] in claims && ClaimRead(env, addresses[i], claims[addresses[i]], balances)
              && claims[addresses[i]].proof == HexAll(ProofFor(env.keccak, balances, i))
              && ClaimedAs(env, claims, balances[i], i)
    {
      ClaimMatches(env, memo, addresses, balances, i);
    }
  }

  /** The blob's claims against the balance list, one by one. */
  lemma {:induction false} ClaimsMatchBalances(env: Env, rows: Rows)
    requires env.Lawful() && Parsed(env, rows).Ok?
    ensures var claims, balances := Parsed(env, rows).value.claims, ListedBalances(env, rows);
            && ReadOff(env, claims, balances)
            && (forall key | key in claims ::
                  claims[key].proof == HexAll(ProofFor(env.keccak, balances, claims[key].index)))
            && (forall i | 0 <= i < |balances| :: ClaimedAs(env, claims, balances[i], i))
  {
    hide StringLeq, ProofFor, HexAll, Parsed, MerkleRoot, BufferToHex, Entries, Addresses, BalancesOf, ClaimsUpTo;
    hide ReadOff, ClaimedAs, Listed, AllFit;
    Unpack(env, rows);
    ClaimsMatchEntries(env, Entries(env, rows), Addresses(env, rows), ListedBalances(env, rows));
  }

  lemma {:induction false} ClaimCount(env: Env, rows: Rows)
    requires env.Lawful() && Parsed(env, rows).Ok?
    ensures |Parsed(env, rows).value.claims| == |rows| == |ListedBalances(env, rows)|
  {
    hide Parsed, ListedBalances;
    Conservation(env, rows);
  }

  /**
    The claims determine the tree: exactly one balance list can be read off them, its tree has the
    published root, and it gives out the published proofs.
   */
  lemma {:induction false} BlobRebuildsTree(env: Env, rows: Rows, rebuilt: Balances)
    requires env.Lawful() && Parsed(env, rows).Ok?
    ensures var info := Parsed(env, rows).value;
            && (ReadOff(env, info.claims, rebuilt) <==> rebuilt == ListedBalances(env, rows))
            && (ReadOff(env, info.claims, rebuilt) ==>
                  && rebuilt != []
                  && BufferToHex(MerkleRoot(env.keccak, rebuilt)) == info.merkleRoot
                  && forall key | key in info.claims ::
                       && info.claims[key].index < |rebuilt|
                       && info.claims[key].proof == HexAll(ProofFor(env.keccak, rebuilt, info.claims[key].index)))
  {
    hide Parsed, MerkleRoot, BufferToHex, ListedBalances, ProofFor, HexAll, ClaimsUpTo, TotalUpTo, Records;
    hide Entries, Addresses;
    var claims, balances := Parsed(env, rows).value.claims, ListedBalances(env, rows);
    Unpack(env, rows);
    ClaimsMatchBalances(env, rows);
    if ReadOff(env, claims, rebuilt) {
      forall i | 0 <= i < |balances| ensures rebuilt[i] == balances[i] {
        assert ClaimedAs(env, claims, balances[i], i);
        var key := env.checksum(balances[i].account);
        assert ClaimRead(env, key, claims[key], rebuilt) && ClaimRead(env, key, claims[key], balances);
      }
      ClaimCount(env, rows);
    }
  }

  // ---- Feeding the blob back in ----

  predicate BlobRow(claims: map<string, Claim>, row: Row) {
    row.address in claims && row.earnings == claims[row.address].amount && row.reasons == ""
  }

  /** One row per claim: its address, its amount as printed, and no reasons. */
  ghost predicate BlobRows(claims: map<string, Claim>, rows: seq<Row>) {
    && |rows| == |claims|
    && (forall i | 0 <= i < |rows| :: BlobRow(claims, rows[i]))
    && (forall i, j | 0 <= i < j < |rows| :: rows[i].address != rows[j].address)
  }

  function WithoutFlags(claims: map<string, Claim>): map<string, Claim> {
    map key | key in claims :: claims[key].(flags := None)
  }

  function EntriesWithoutFlags(memo: map<string, Entry>): (r: map<string, Entry>)
    ensures r.Keys == memo.Keys
  {
    map key | key in memo :: memo[key].(flags := None)
  }

  lemma {:induction false} EntryPositive(env: Env, rows: Rows, key: string)
    requires env.Lawful() && Parsed(env, rows).Ok? && key in Entries(env, rows)
    ensures Entries(env, rows)[key].amount > 0
  {
    hide Parsed, Entries;
    Unpack(env, rows);
    var i :| 0 <= i < |rows| && KeyOf(env, rows[i]) == key;
    assert MapsTo(Entries(env, rows), KeyOf(env, rows[i]), EntryOf(env, rows[i]));
  }

  /** A blob row is good, and records its address with its amount and no flags. */
  lemma {:induction false} BlobRowGood(env: Env, rows: Rows, row: Row)
    requires env.Lawful() && Parsed(env, rows).Ok?
    requires BlobRow(Parsed(env, rows).value.claims, row)
    ensures GoodRow(env, row) && KeyOf(env, row) == row.address && row.address in Entries(env, rows)
    ensures EntryOf(env, row) == Entry(Entries(env, rows)[row.address].amount, None)
  {
    hide StringLeq, ProofFor, HexAll, Parsed, MerkleRoot, BufferToHex, Entries, ListedBalances, ClaimsUpTo;
    hide TotalUpTo, Records, AllGood, AllFit;
    Unpack(env, rows);
    var memo, addresses, balances := Entries(env, rows), Addresses(env, rows), ListedBalances(env, rows);
    ClaimsNumbered(env, memo, addresses, balances, |addresses|);
    var i := Parsed(env, rows).value.claims[row.address].index;
    ClaimsHold(env, memo, addresses, balances, |addresses|, i);
    EntryPositive(env, rows, row.address);
  }

  /** A row that says what one of the entries says, flags apart. */
  ghost predicate Restates(env: Env, memo: map<string, Entry>, row: Row) {
    && GoodRow(env, row) && KeyOf(env, row) == row.address && row.address in memo
    && EntryOf(env, row) == Entry(memo[row.address].amount, None)
  }

  ghost predicate AllRestated(env: Env, memo: map<string, Entry>, rows: seq<Row>) {
    && |rows| == |memo|
    && (forall i | 0 <= i < |rows| :: Restates(env, memo, rows[i]))
    && (forall i, j | 0 <= i < j < |rows| :: rows[i].address != rows[j].address)
  }

  lemma {:induction false} SubsetFull<T>(a: set<T>, b: set<T>)
    requires a <= b && |a| == |b|
    ensures a == b
  {
    assert |b - a| == |b| - |a|;
  }

  lemma {:induction false} EveryAddressListed(
      env: Env, memo: map<string, Entry>, rows: seq<Row>, key: string) returns (i: nat)
    requires AllRestated(env, memo, rows) && key in memo
    ensures i < |rows| && rows[i].address == key
  {
    hide GoodRow, KeyOf, EntryOf;
    var listed := seq(|rows|, i requires 0 <= i < |rows| => rows[i].address);
    assert Distinct(listed);
    DistinctIffFull(listed);
    var members := set x | x in listed;
    forall x | x in listed ensures x in memo.Keys {
      var i :| 0 <= i < |listed| && listed[i] == x;
      assert Restates(env, memo, rows[i]);
    }
    assert |memo.Keys| == |memo|;
    SubsetFull(members, memo.Keys);
    assert key in members;
    i :| 0 <= i < |listed| && listed[i] == key;
  }

  lemma {:induction false} RestatedGood(env: Env, memo: map<string, Entry>, rows: seq<Row>)
    requires AllRestated(env, memo, rows)
    ensures AllGood(env, rows) && DistinctKeys(env, rows)
  {
    hide GoodRow, KeyOf, EntryOf;
    forall i | 0 <= i < |rows| ensures GoodRow(env, rows[i]) && KeyOf(env, rows[i]) == rows[i].address {
      assert Restates(env, memo, rows[i]);
    }
  }

  lemma {:induction false} RestatedRow(env: Env, memo: map<string, Entry>, rows: seq<Row>, i: nat)
    requires AllRestated(env, memo, rows) && i < |rows|
    ensures Restates(env, memo, rows[i])
  {
  }

  lemma {:induction false} RestatedRecords(
      env: Env, memo: map<string, Entry>, rows: seq<Row>, result: map<string, Entry>)
    requires AllRestated(env, memo, rows) && AllGood(env, rows) && Records(env, rows, result)
    ensures result == EntriesWithoutFlags(memo)
  {
    hide GoodRow, KeyOf, EntryOf, AllRestated;
    var bare := EntriesWithoutFlags(memo);
    forall key | key in memo ensures key in result && result[key] == bare[key] {
      var i := EveryAddressListed(env, memo, rows, key);
      RestatedRow(env, memo, rows, i);
      assert MapsTo(result, KeyOf(env, rows[i]), EntryOf(env, rows[i]));
    }
    forall key | key in result ensures key in memo {
      var i :| 0 <= i < |rows| && KeyOf(env, rows[i]) == key;
      RestatedRow(env, memo, rows, i);
    }
  }

  lemma {:induction false} RestatedCollect(env: Env, memo: map<string, Entry>, rows: seq<Row>)
    requires AllRestated(env, memo, rows)
    ensures Collect(env, rows) == Ok(EntriesWithoutFlags(memo))
  {
    hide GoodRow, Collect, AllRestated, EntriesWithoutFlags;
    RestatedGood(env, memo, rows);
    CollectExact(env, rows);
    RestatedRecords(env, memo, rows, Collect(env, rows).value);
  }

  lemma {:induction false} EntryCount(env: Env, rows: Rows)
    requires env.Lawful() && Parsed(env, rows).Ok?
    ensures |Entries(env, rows)| == |rows|
  {
    hide Parsed;
    Succeeded(env, rows);
  }

  lemma {:induction false} BlobRowsCollect(env: Env, rows: Rows, again: Rows)
    requires env.Lawful() && Parsed(env, rows).Ok?
    requires BlobRows(Parsed(env, rows).value.claims, again)
    ensures Collect(env, again) == Ok(EntriesWithoutFlags(Entries(env, rows)))
  {
    hide Parsed, Entries, GoodRow, KeyOf, EntryOf, Collect, BlobRow, EntriesWithoutFlags;
    forall i | 0 <= i < |again| ensures Restates(env, Entries(env, rows), again[i]) {
      BlobRowGood(env, rows, again[i]);
    }
    EntryCount(env, rows);
    ClaimCount(env, rows);
    RestatedCollect(env, Entries(env, rows), again);
  }

  lemma {:induction false} TotalIgnoresFlags(memo: map<string, Entry>, addresses: seq<string>, n: nat)
    requires n <= |addresses|
    requires forall i | 0 <= i < |addresses| :: addresses[i] in memo
    ensures TotalUpTo(EntriesWithoutFlags(memo), addresses, n) == TotalUpTo(memo, addresses, n)
  {
    if n > 0 {
      TotalIgnoresFlags(memo, addresses, n - 1);
    }
  }

  lemma {:induction false} ClaimsLoseFlags(
      env: Env, memo: map<string, Entry>, addresses: seq<string>, balances: Balances, n: nat)
    requires n <= |addresses| == |balances|
    requires forall i | 0 <= i < |addresses| :: addresses[i] in memo
    ensures ClaimsUpTo(env, EntriesWithoutFlags(memo), addresses, balances, n)
         == WithoutFlags(ClaimsUpTo(env, memo, addresses, balances, n))
  {
    hide ProofFor, HexAll;
    if n > 0 {
      ClaimsLoseFlags(env, memo, addresses, balances, n - 1);
    }
  }

  lemma {:induction false} PublishLosesFlags(env: Env, memo: map<string, Entry>)
    requires CanonicalKeys(env, memo) && |memo| <= UINT256_LIMIT && Publish(env, memo).Ok?
    ensures CanonicalKeys(env, EntriesWithoutFlags(memo)) && |EntriesWithoutFlags(memo)| == |memo|
    ensures var info := Publish(env, memo).value;
            Publish(env, EntriesWithoutFlags(memo)) == Ok(info.(claims := WithoutFlags(info.claims)))
  {
    hide StringLeq, SortedKeys, MerkleRoot, BufferToHex, TotalUpTo, ClaimsUpTo, BalancesOf, WithoutFlags;
    var bare, addresses := EntriesWithoutFlags(memo), SortedKeys(memo.Keys);
    assert |bare| == |bare.Keys|;
    SortedKeysOrdered(memo.Keys);
    forall i | 0 <= i < |addresses| ensures addresses[i] in memo {
      assert addresses[i] in addresses;
    }
    assert AllFit(bare);
    var balances := BalancesOf(env, memo, addresses);
    assert balances == BalancesOf(env, bare, addresses);
    TotalIgnoresFlags(memo, addresses, |addresses|);
    ClaimsLoseFlags(env, memo, addresses, balances, |addresses|);
  }

  /**
    Feeding the claims back in, one row each in any order, reproduces root, total, indices, amounts
    and proofs.
   */
  lemma {:induction false} BlobRoundTrip(env: Env, rows: Rows, again: Rows)
    requires env.Lawful() && Parsed(env, rows).Ok?
    requires BlobRows(Parsed(env, rows).value.claims, again)
    ensures var info := Parsed(env, rows).value;
            Parsed(env, again) == Ok(info.(claims := WithoutFlags(info.claims)))
  {
    hide Publish, WithoutFlags, EntriesWithoutFlags;
    BlobRowsCollect(env, rows, again);
    CollectCanonical(env, rows);
    PublishLosesFlags(env, Collect(env, rows).value);
  }

  // ---- What the published root accepts ----

  /** A claim as it appears in the blob. */
  ghost predicate Published(env: Env, claims: map<string, Claim>, index: uint256, account: Address,
                            amount: uint256, proof: seq<Bytes>) {
    var key := env.checksum(account);
    && key in claims
    && claims[key].index == index
    && claims[key].amount == env.toHexString(amount)
    && claims[key].proof == HexAll(proof)
  }

  lemma {:induction false} HexAllInjective(p: seq<Bytes>, q: seq<Bytes>)
    ensures HexAll(p) == HexAll(q) ==> p == q
  {
    hide HexAll;
    DecodeHexAll(p);
    DecodeHexAll(q);
  }

  lemma {:induction false} PublishedIsListed(
      env: Env, rows: Rows, index: uint256, account: Address, amount: uint256, proof: seq<Bytes>)
    requires env.Lawful() && Parsed(env, rows).Ok?
    ensures Published(env, Parsed(env, rows).value.claims, index, account, amount, proof) <==>
            GivenOut(env.keccak, ListedBalances(env, rows), index, account, amount, proof)
  {
    hide Parsed, ListedBalances, ProofFor, HexAll;
    var claims, balances := Parsed(env, rows).value.claims, ListedBalances(env, rows);
    ClaimsMatchBalances(env, rows);
    var key := env.checksum(account);
    if key in claims && claims[key].index == index {
      assert ClaimRead(env, key, claims[key], balances);
      HexAllInjective(proof, ProofFor(env.keccak, balances, index));
    }
    if index < |balances| && balances[index] == Balance(account, amount) {
      assert ClaimedAs(env, claims, balances[index], index);
    }
  }

  /**
    The tree holds every published claim and no additional distributions: the published root
    accepts exactly the claims in the blob and the proofs that read a leaf as a pair, of which there
    are none among hashes; or two strings hashed in this run collide.
   */
  lemma {:induction false} NoAdditionalDistributions(
      env: Env, rows: Rows, root: Bytes, index: uint256, account: Address,
      amount: uint256, proof: seq<Bytes>) returns (a: Bytes, b: Bytes)
    requires env.Lawful() && Parsed(env, rows).Ok?
    requires HexToBuffer(Parsed(env, rows).value.merkleRoot) == Some(root)
    ensures var balances, node := ListedBalances(env, rows), ToNode(env.keccak, index, account, amount);
            var hashed := BuildPreimages(env.keccak, balances)
                          + VerifyPreimages(env.keccak, index, account, amount, proof);
            || (Accepts(env.keccak, root, index, account, amount, proof)
                <==> || Published(env, Parsed(env, rows).value.claims, index, account, amount, proof)
                     || LeafReadAsPair(env.keccak, balances, node, proof))
            || Collides(env.keccak, hashed, a, b)
    ensures NoLeafSizedItem(proof) ==>
              !LeafReadAsPair(env.keccak, ListedBalances(env, rows),
                              ToNode(env.keccak, index, account, amount), proof)
    ensures Published(env, Parsed(env, rows).value.claims, index, account, amount, proof) ==>
              NoLeafSizedItem(proof)
  {
    hide Parsed, ListedBalances, ProofFor, Accepts, BuildPreimages, VerifyPreimages, HexToBuffer, MerkleRoot;
    hide Published, BufferToHex, NoLeafSizedItem, LeafReadAsPair, GivenOut, ToNode;
    Unpack(env, rows);
    HexRoundTrip(MerkleRoot(env.keccak, ListedBalances(env, rows)));
    PublishedIsListed(env, rows, index, account, amount, proof);
    a, b := VerifierExact(env.keccak, ListedBalances(env, rows), index, account, amount, proof);
  }
}
