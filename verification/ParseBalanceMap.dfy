/**
  `parseBalanceMap`: validate the rows, sort the addresses, build the tree, and publish the root,
  the total and one claim per address.

  Foreign code enters through `Env`: keccak256, address decoding and checksumming, and number
  parsing and printing are arbitrary functions; `Lawful` says only that printing can be read back.
 */
module BalanceMaps {
  import opened Wrappers
  import opened Errors
  import opened Ordering
  import opened Buffers
  import opened Hashing
  import opened MerkleHash
  import opened MerkleTrees
  import opened BalanceTrees

  /**
    `isAddress` is `decode(s).Some?` and `getAddress` is `checksum(decode(s).value)`.
    `bigNumber` is `BigNumber.from`, which throws where it is `None`.
   */
  datatype Env = Env(
    keccak: Hasher,
    decode: string -> Option<Address>,
    checksum: Address -> string,
    bigNumber: string -> Option<int>,
    toHexString: nat -> string,
    toString16: nat -> string)
  {
    ghost predicate Lawful() {
      && (forall a: Address :: decode(checksum(a)) == Some(a))
      && (forall n: nat :: bigNumber(toHexString(n)) == Some(n))
      && (forall n: nat :: bigNumber("0x" + toString16(n)) == Some(n))
    }
  }

  /** One character per byte: a stand-in for checksummed hexadecimal, to show the laws can be met. */
  function CharsOf(b: Bytes): string {
    seq(|b|, i requires 0 <= i < |b| => b[i] as char)
  }

  function AddressOf(s: string): Option<Address> {
    if |s| == ADDRESS_LENGTH && forall i | 0 <= i < |s| :: (s[i] as int) < 256 then
      var b: Address := seq(|s|, i requires 0 <= i < |s| => s[i] as int);
      Some(b)
    else
      None
  }

  lemma {:induction false} CharsReadBack(a: Address)
    ensures AddressOf(CharsOf(a)) == Some(a)
  {
    var s := CharsOf(a);
    assert forall i | 0 <= i < |s| :: s[i] as int == a[i];
    assert AddressOf(s).value == a;
  }

  function Unary(n: nat): string {
    if n == 0 then "" else "1" + Unary(n - 1)
  }

  function CountUnary(s: string): Option<int> {
    Some(if "0x" <= s then |s| - 2 else |s|)
  }

  lemma {:induction false} UnaryReadsBack(n: nat)
    ensures |Unary(n)| == n
    ensures CountUnary(Unary(n)) == Some(n) == CountUnary("0x" + Unary(n))
  {
    if n > 0 {
      UnaryReadsBack(n - 1);
      assert Unary(n)[0] == '1';
    }
  }

  /** The laws asked of foreign code are consistent. */
  lemma {:induction false} LawsAreConsistent() returns (env: Env)
    ensures env.Lawful()
  {
    hide AddressOf, CharsOf, Unary, CountUnary;
    env := Env(_ => seq(HASH_LENGTH, _ => 0), s => AddressOf(s), b => CharsOf(b),
               s => CountUnary(s), (n: nat) => Unary(n), (n: nat) => Unary(n));
    forall a: Address ensures env.decode(env.checksum(a)) == Some(a) {
      CharsReadBack(a);
    }
    forall n: nat
      ensures env.bigNumber(env.toHexString(n)) == Some(n)
      ensures env.bigNumber("0x" + env.toString16(n)) == Some(n)
    {
      UnaryReadsBack(n);
    }
  }

  // ---- Input ----

  datatype Row = Row(address: string, earnings: string, reasons: string)

  datatype OldValue = Number(n: nat) | Text(text: string)

  datatype OldEntry = OldEntry(account: string, value: OldValue)

  datatype Input = OldFormat(entries: seq<OldEntry>) | NewFormat(rows: seq<Row>)

  type Rows = r: seq<Row> | |r| <= UINT256_LIMIT

  function OldRow(env: Env, entry: OldEntry): Row {
    var digits := match entry.value
      case Number(n) => env.toString16(n)
      case Text(text) => text;
    Row(entry.account, "0x" + digits, "")
  }

  function InNewFormat(env: Env, input: Input): (r: seq<Row>)
    ensures |r| == if input.NewFormat? then |input.rows| else |input.entries|
  {
    match input
    case NewFormat(rows) => rows
    case OldFormat(entries) => seq(|entries|, i requires 0 <= i < |entries| => OldRow(env, entries[i]))
  }

  // ---- Rows to entries ----

  datatype Flags = Flags(isSOCKS: bool, isLP: bool, isUser: bool)

  datatype Entry = Entry(amount: nat, flags: Option<Flags>)

  predicate Includes(s: string, part: string) {
    part <= s || (s != "" && Includes(s[1..], part))
  }

  predicate OccursAt(s: string, part: string, i: nat) {
    i <= |s| && part <= s[i..]
  }

  /** `includes`: the part occurs at some position. */
  lemma {:induction false} IncludesExact(s: string, part: string)
    ensures Includes(s, part) <==> exists i: nat :: OccursAt(s, part, i)
  {
    if part <= s {
      assert OccursAt(s, part, 0);
    } else if s != "" {
      IncludesExact(s[1..], part);
      if Includes(s[1..], part) {
        var i: nat :| OccursAt(s[1..], part, i);
        assert s[1..][i..] == s[i + 1..];
        assert OccursAt(s, part, i + 1);
      }
      assert s[0..] == s;
      if i: nat :| OccursAt(s, part, i) {
        assert s[i..] == s[1..][i - 1..];
        assert OccursAt(s[1..], part, i - 1);
      }
    }
  }

  function FlagsOf(reasons: string): Option<Flags> {
    if reasons == "" then
      None
    else
      Some(Flags(Includes(reasons, "socks"), Includes(reasons, "lp"), Includes(reasons, "user")))
  }

  ghost predicate Occurs(s: string, part: string) {
    exists i: nat :: OccursAt(s, part, i)
  }

  /** No flags for no reasons; otherwise each flag is set just when its word occurs. */
  ghost predicate FlagsSay(reasons: string, flags: Option<Flags>) {
    && (flags.None? <==> reasons == "")
    && (flags.Some? ==>
          && (flags.value.isSOCKS <==> Occurs(reasons, "socks"))
          && (flags.value.isLP <==> Occurs(reasons, "lp"))
          && (flags.value.isUser <==> Occurs(reasons, "user")))
  }

  lemma {:induction false} FlagsExact(reasons: string)
    ensures FlagsSay(reasons, FlagsOf(reasons))
  {
    IncludesExact(reasons, "socks");
    IncludesExact(reasons, "lp");
    IncludesExact(reasons, "user");
  }

  /** What one row adds to the entries so far, or the exception it raises. */
  function AddRow(env: Env, memo: map<string, Entry>, row: Row): Result<map<string, Entry>, Error> {
    match env.decode(row.address)
    case None => Err(InvalidAddress(row.address))
    case Some(account) =>
      var parsed := env.checksum(account);
      if parsed in memo then
        Err(DuplicateAddress(parsed))
      else
        match env.bigNumber(row.earnings)
        case None => Err(InvalidNumber(row.earnings))
        case Some(parsedNum) =>
          if parsedNum <= 0 then
            Err(InvalidAmount(row.address))
          else
            Ok(memo[parsed := Entry(parsedNum, FlagsOf(row.reasons))])
  }

  /** The rows from first to last; the first exception wins. */
  function Collect(env: Env, rows: seq<Row>): (r: Result<map<string, Entry>, Error>)
    ensures r.Ok? ==> |r.value| == |rows|
  {
    if rows == [] then
      Ok(map[])
    else
      match Collect(env, rows[..|rows| - 1])
      case Err(e) => Err(e)
      case Ok(memo) =>
        var r := AddRow(env, memo, rows[|rows| - 1]);
        assert r.Ok? ==> exists key | key !in memo :: r.value.Keys == memo.Keys + {key};
        r
  }

  ghost predicate CanonicalKeys(env: Env, memo: map<string, Entry>) {
    forall key | key in memo :: env.decode(key).Some? && env.checksum(env.decode(key).value) == key
  }

  lemma {:induction false} CollectCanonical(env: Env, rows: seq<Row>)
    requires env.Lawful()
    ensures Collect(env, rows).Ok? ==> CanonicalKeys(env, Collect(env, rows).value)
  {
    if rows != [] {
      CollectCanonical(env, rows[..|rows| - 1]);
    }
  }

  lemma {:induction false} FirstErrorWins(env: Env, rows: seq<Row>, n: nat)
    requires n <= |rows| && Collect(env, rows[..n]).Err?
    ensures Collect(env, rows) == Collect(env, rows[..n])
    decreases |rows| - n
  {
    if n == |rows| {
      assert rows[..n] == rows;
    } else {
      assert rows[..n + 1][..n] == rows[..n];
      FirstErrorWins(env, rows, n + 1);
    }
  }

  // ---- Sorted addresses ----

  predicate CharLess(a: char, b: char) {
    a < b
  }

  predicate StringLeq(a: string, b: string) {
    LexLeq(CharLess, a, b)
  }

  lemma {:induction false} StringOrder()
    ensures TotalOrder(StringLeq)
  {
    LexOrder(CharLess, StringLeq);
  }

  /** Code points decide at the first difference, and a prefix comes first. */
  lemma {:induction false} StringOrderExact(a: string, b: string)
    ensures StringLeq(a, b) <==> a <= b || exists k: nat :: DifferFirstAt(a, b, k) && a[k] as int < b[k] as int
  {
    LexExact(CharLess, a, b);
  }

  ghost predicate ListsExactly(s: seq<string>, keys: set<string>) {
    forall x :: x in s <==> x in keys
  }

  ghost function Enumerate(keys: set<string>): seq<string> {
    if keys == {} then
      []
    else
      var key :| key in keys;
      [key] + Enumerate(keys - {key})
  }

  lemma {:induction false} EnumerateLists(keys: set<string>)
    ensures ListsExactly(Enumerate(keys), keys) && |Enumerate(keys)| == |keys|
    decreases |keys|
  {
    if keys != {} {
      var key :| key in keys && Enumerate(keys) == [key] + Enumerate(keys - {key});
      EnumerateLists(keys - {key});
    }
  }

  /** The keys in increasing order; the order a JavaScript object lists them in plays no part. */
  ghost function SortedKeys(keys: set<string>): seq<string> {
    Sort(StringLeq, Enumerate(keys))
  }

  lemma {:induction false} SortsStrictly(s: seq<string>, keys: set<string>)
    requires ListsExactly(s, keys) && |s| == |keys|
    ensures StrictlySorted(StringLeq, Sort(StringLeq, s))
    ensures ListsExactly(Sort(StringLeq, s), keys) && |Sort(StringLeq, s)| == |keys|
  {
    hide StringLeq;
    StringOrder();
    SortSorted(StringLeq, s);
    var sorted := Sort(StringLeq, s);
    assert (set x | x in sorted) == keys;
    DistinctIffFull(sorted);
  }

  lemma {:induction false} SortedKeysOrdered(keys: set<string>)
    ensures StrictlySorted(StringLeq, SortedKeys(keys))
    ensures ListsExactly(SortedKeys(keys), keys) && |SortedKeys(keys)| == |keys|
  {
    EnumerateLists(keys);
    SortsStrictly(Enumerate(keys), keys);
  }

  /** `Object.keys`, in any order. */
  method ListKeys(keys: set<string>) returns (listed: seq<string>)
    ensures ListsExactly(listed, keys) && |listed| == |keys|
  {
    listed := [];
    var rest := keys;
    while rest != {}
      invariant rest <= keys
      invariant ListsExactly(listed, keys - rest) && |listed| == |keys| - |rest|
      decreases |rest|
    {
      var key :| key in rest;
      assert keys - (rest - {key}) == (keys - rest) + {key};
      listed := listed + [key];
      rest := rest - {key};
    }
    assert keys - {} == keys;
  }

  method SortAddresses(keys: set<string>) returns (sorted: seq<string>)
    ensures sorted == SortedKeys(keys)
  {
    hide StringLeq, Sort, SortedKeys;
    var listed := ListKeys(keys);
    sorted := Sort(StringLeq, listed);
    StringOrder();
    SortsStrictly(listed, keys);
    SortedKeysOrdered(keys);
    StrictlySortedUnique(StringLeq, sorted, SortedKeys(keys));
  }

  // ---- Output ----

  datatype Claim = Claim(index: nat, amount: string, proof: seq<string>, flags: Option<Flags>)

  datatype Info = Info(merkleRoot: string, tokenTotal: string, claims: map<string, Claim>)

  predicate FitsUint256(amount: nat) {
    amount < UINT256_LIMIT
  }

  ghost predicate AllFit(memo: map<string, Entry>) {
    forall key | key in memo :: FitsUint256(memo[key].amount)
  }

  /** Addresses that are all entries, in a list short enough for uint256 indices. */
  ghost predicate Listed(env: Env, memo: map<string, Entry>, addresses: seq<string>) {
    && CanonicalKeys(env, memo)
    && |addresses| <= UINT256_LIMIT
    && forall i | 0 <= i < |addresses| :: addresses[i] in memo
  }

  function BalanceOf(env: Env, memo: map<string, Entry>, address: string): Balance
    requires address in memo && env.decode(address).Some? && FitsUint256(memo[address].amount)
  {
    Balance(env.decode(address).value, memo[address].amount)
  }

  function BalancesOf(env: Env, memo: map<string, Entry>, addresses: seq<string>): (r: Balances)
    requires Listed(env, memo, addresses) && AllFit(memo)
    ensures |r| == |addresses|
    ensures forall i | 0 <= i < |r| :: r[i] == BalanceOf(env, memo, addresses[i])
  {
    if addresses == [] then
      []
    else
      BalancesOf(env, memo, addresses[..|addresses| - 1])
      + [BalanceOf(env, memo, addresses[|addresses| - 1])]
  }

  ghost function ClaimAt(env: Env, memo: map<string, Entry>, addresses: seq<string>, balances: Balances, i: nat): Claim
    requires i < |addresses| == |balances| && addresses[i] in memo
  {
    var entry := memo[addresses[i]];
    Claim(i, env.toHexString(entry.amount), HexAll(ProofFor(env.keccak, balances, i)), entry.flags)
  }

  /** The claims of the first n addresses. */
  ghost function ClaimsUpTo(env: Env, memo: map<string, Entry>, addresses: seq<string>, balances: Balances, n: nat)
      : map<string, Claim>
    requires n <= |addresses| == |balances|
    requires forall i | 0 <= i < |addresses| :: addresses[i] in memo
  {
    if n == 0 then
      map[]
    else
      ClaimsUpTo(env, memo, addresses, balances, n - 1)
      [addresses[n - 1] := ClaimAt(env, memo, addresses, balances, n - 1)]
  }

  function TotalUpTo(memo: map<string, Entry>, addresses: seq<string>, n: nat): nat
    requires n <= |addresses|
    requires forall i | 0 <= i < |addresses| :: addresses[i] in memo
  {
    if n == 0 then 0 else TotalUpTo(memo, addresses, n - 1) + memo[addresses[n - 1]].amount
  }

  /** The published blob, or the exception of the tree's constructor. */
  ghost function Publish(env: Env, memo: map<string, Entry>): Result<Info, Error>
    requires CanonicalKeys(env, memo) && |memo| <= UINT256_LIMIT
  {
    var addresses := SortedKeys(memo.Keys);
    SortedKeysOrdered(memo.Keys);
    if !AllFit(memo) then
      Err(ValueOutOfRange)
    else if addresses == [] then
      Err(EmptyTree)
    else
      assert forall i | 0 <= i < |addresses| :: addresses[i] in addresses;
      var balances := BalancesOf(env, memo, addresses);
      Ok(Info(BufferToHex(MerkleRoot(env.keccak, balances)),
              env.toHexString(TotalUpTo(memo, addresses, |addresses|)),
              ClaimsUpTo(env, memo, addresses, balances, |addresses|)))
  }

  ghost function Parsed(env: Env, rows: Rows): Result<Info, Error>
    requires env.Lawful()
  {
    match Collect(env, rows)
    case Err(e) => Err(e)
    case Ok(memo) => CollectCanonical(env, rows); Publish(env, memo)
  }

  method CollectData(env: Env, rows: seq<Row>) returns (r: Result<map<string, Entry>, Error>)
    ensures r == Collect(env, rows)
  {
    var memo: map<string, Entry> := map[];
    for i := 0 to |rows|
      invariant Collect(env, rows[..i]) == Ok(memo)
    {
      assert rows[..i + 1][..i] == rows[..i];
      r := AddRow(env, memo, rows[i]);
      if r.Err? {
        FirstErrorWins(env, rows, i + 1);
        return;
      }
      memo := r.value;
    }
    assert rows[..|rows|] == rows;
    return Ok(memo);
  }

  method BuildBalances(env: Env, memo: map<string, Entry>, addresses: seq<string>)
      returns (r: Result<Balances, Error>)
    requires Listed(env, memo, addresses) && ListsExactly(addresses, memo.Keys)
    ensures r.Err? <==> !AllFit(memo)
    ensures r.Err? ==> r.error == ValueOutOfRange
    ensures r.Ok? ==> r.value == BalancesOf(env, memo, addresses)
  {
    var balances: Balances := [];
    for i := 0 to |addresses|
      invariant |balances| == i
      invariant forall j | 0 <= j < i :: FitsUint256(memo[addresses[j]].amount)
      invariant forall j | 0 <= j < i :: balances[j] == BalanceOf(env, memo, addresses[j])
    {
      if !FitsUint256(memo[addresses[i]].amount) {
        return Err(ValueOutOfRange);
      }
      balances := balances + [BalanceOf(env, memo, addresses[i])];
    }
    forall key | key in memo ensures FitsUint256(memo[key].amount) {
      assert key in addresses;
    }
    return Ok(balances);
  }

  method BuildClaims(env: Env, memo: map<string, Entry>, addresses: seq<string>, balances: Balances, tree: BalanceTree)
      returns (claims: map<string, Claim>)
    requires Listed(env, memo, addresses) && AllFit(memo) && addresses != []
    requires balances == BalancesOf(env, memo, addresses)
    requires tree.Valid() && tree.tree.keccak == env.keccak
    requires tree.tree.elements == TreeLeaves(env.keccak, balances)
    ensures claims == ClaimsUpTo(env, memo, addresses, balances, |addresses|)
  {
    hide BufferLeq, LeafPreimage, Joiner, HexAll, Leaves;
    claims := map[];
    for index := 0 to |addresses|
      invariant claims == ClaimsUpTo(env, memo, addresses, balances, index)
    {
      var address := addresses[index];
      var entry := memo[address];
      NodesInLeaves(env.keccak, balances, index);
      var proof := tree.GetProof(index, env.decode(address).value, entry.amount);
      claims := claims[address := Claim(index, env.toHexString(entry.amount), proof.value, entry.flags)];
    }
  }

  method SumAmounts(memo: map<string, Entry>, addresses: seq<string>) returns (total: nat)
    requires forall i | 0 <= i < |addresses| :: addresses[i] in memo
    ensures total == TotalUpTo(memo, addresses, |addresses|)
  {
    total := 0;
    for i := 0 to |addresses|
      invariant total == TotalUpTo(memo, addresses, i)
    {
      total := total + memo[addresses[i]].amount;
    }
  }

  method ParseBalanceMap(env: Env, input: Input) returns (r: Result<Info, Error>)
    requires env.Lawful() && |InNewFormat(env, input)| <= UINT256_LIMIT
    ensures r == Parsed(env, InNewFormat(env, input))
  {
    hide BufferLeq, StringLeq, Joiner, Leaves, TreeLeaves, SortedKeys, Collect, ClaimsUpTo, TotalUpTo, BufferToHex;
    var rows := InNewFormat(env, input);
    var collected := CollectData(env, rows);
    if collected.Err? {
      return Err(collected.error);
    }
    var dataByAddress := collected.value;
    CollectCanonical(env, rows);
    var sortedAddresses := SortAddresses(dataByAddress.Keys);
    SortedKeysOrdered(dataByAddress.Keys);
    assert forall i | 0 <= i < |sortedAddresses| :: sortedAddresses[i] in sortedAddresses;
    var balances := BuildBalances(env, dataByAddress, sortedAddresses);
    if balances.Err? {
      return Err(ValueOutOfRange);
    }
    var tree := BalanceTree.Create(env.keccak, balances.value);
    if tree.Err? {
      return Err(EmptyTree);
    }
    var claims := BuildClaims(env, dataByAddress, sortedAddresses, balances.value, tree.value);
    var tokenTotal := SumAmounts(dataByAddress, sortedAddresses);
    var merkleRoot := tree.value.GetHexRoot();
    return Ok(Info(merkleRoot, env.toHexString(tokenTotal), claims));
  }
}
