/**
  Paying out against a root: the contract's claim bitmap, over whole runs.

  A claim's proof is a `bytes32[]`, so its items are hashes. The outcome of the external token
  transfer is a parameter of each call.
 */
module Distributor {
  import opened Wrappers
  import opened Buffers
  import opened Hashing
  import opened TreeShape
  import opened BalanceTrees

  // ---- Unsigned words, bit by bit ----

  function BitOr(a: nat, b: nat): nat
    decreases a + b
  {
    if a == 0 then b
    else if b == 0 then a
    else 2 * BitOr(a / 2, b / 2) + if a % 2 == 1 || b % 2 == 1 then 1 else 0
  }

  function BitAnd(a: nat, b: nat): nat {
    if a == 0 || b == 0 then 0
    else 2 * BitAnd(a / 2, b / 2) + if a % 2 == 1 && b % 2 == 1 then 1 else 0
  }

  predicate HasMask(word: nat, mask: nat) {
    BitAnd(word, mask) == mask
  }

  lemma {:induction false} HalveMask(word: nat, bit: nat)
    ensures bit == 0 ==> (HasMask(word, Pow2(bit)) <==> word % 2 == 1)
    ensures bit > 0 ==> (HasMask(word, Pow2(bit)) <==> HasMask(word / 2, Pow2(bit - 1)))
  {
    if bit == 0 {
      assert BitAnd(word / 2, 0) == 0;
    } else {
      assert Pow2(bit) / 2 == Pow2(bit - 1) && Pow2(bit) % 2 == 0;
    }
  }

  lemma {:induction false} HalveOr(word: nat, bit: nat)
    ensures bit == 0 ==> BitOr(word, Pow2(bit)) % 2 == 1 && BitOr(word, Pow2(bit)) / 2 == word / 2
    ensures bit > 0 ==>
              && BitOr(word, Pow2(bit)) % 2 == word % 2
              && BitOr(word, Pow2(bit)) / 2 == BitOr(word / 2, Pow2(bit - 1))
  {
    if bit == 0 {
      assert BitOr(word / 2, 0) == word / 2;
    } else {
      assert Pow2(bit) / 2 == Pow2(bit - 1) && Pow2(bit) % 2 == 0;
    }
  }

  /** Setting one bit sets that bit and leaves every other one alone. */
  lemma {:induction false} SetBit(word: nat, bit: nat, other: nat)
    ensures HasMask(BitOr(word, Pow2(bit)), Pow2(other)) <==> bit == other || HasMask(word, Pow2(other))
    decreases bit
  {
    hide HasMask, BitOr, Pow2;
    HalveOr(word, bit);
    HalveMask(word, other);
    HalveMask(BitOr(word, Pow2(bit)), other);
    if bit > 0 && other > 0 {
      SetBit(word / 2, bit - 1, other - 1);
    }
  }

  // ---- The contract ----

  datatype Attempt = Attempt(index: uint256, account: Address, amount: uint256, proof: seq<Hash>)

  /** One call of `claim`, with the outcome its token transfer has or would have. */
  datatype Call = Call(attempt: Attempt, transferred: bool)

  datatype ClaimError = AlreadyClaimed | InvalidProof | TransferFailed

  /** The bitmap, and the payments made so far in order. */
  datatype State = State(bitMap: map<nat, nat>, payments: seq<Attempt>)

  function Word(bitMap: map<nat, nat>, i: nat): nat {
    if i in bitMap then bitMap[i] else 0
  }

  predicate Claimed(bitMap: map<nat, nat>, index: nat) {
    HasMask(Word(bitMap, index / 256), Pow2(index % 256))
  }

  function Mark(bitMap: map<nat, nat>, index: nat): map<nat, nat> {
    bitMap[index / 256 := BitOr(Word(bitMap, index / 256), Pow2(index % 256))]
  }

  /** Marking an index marks that index alone. */
  lemma {:induction false} MarkExact(bitMap: map<nat, nat>, index: nat, other: nat)
    ensures Claimed(Mark(bitMap, index), other) <==> other == index || Claimed(bitMap, other)
  {
    hide HasMask, BitOr, Pow2;
    if index / 256 == other / 256 {
      SetBit(Word(bitMap, index / 256), index % 256, other % 256);
    }
  }

  predicate ValidClaim(keccak: Hasher, root: Bytes, attempt: Attempt) {
    Accepts(keccak, root, attempt.index, attempt.account, attempt.amount, attempt.proof)
  }

  /** How a call ends; on an exception the state is what it was. */
  function Outcome(keccak: Hasher, root: Bytes, s: State, call: Call): Result<State, ClaimError> {
    var attempt := call.attempt;
    if Claimed(s.bitMap, attempt.index) then Err(AlreadyClaimed)
    else if !ValidClaim(keccak, root, attempt) then Err(InvalidProof)
    else if !call.transferred then Err(TransferFailed)
    else Ok(State(Mark(s.bitMap, attempt.index), s.payments + [attempt]))
  }

  function Step(keccak: Hasher, root: Bytes, s: State, call: Call): State {
    var r := Outcome(keccak, root, s, call);
    if r.Ok? then r.value else s
  }

  /** The state after any sequence of calls on a freshly deployed contract. */
  function Run(keccak: Hasher, root: Bytes, calls: seq<Call>): State {
    if calls == [] then
      State(map[], [])
    else
      Step(keccak, root, Run(keccak, root, calls[..|calls| - 1]), calls[|calls| - 1])
  }

  class MerkleDistributor {
    const keccak: Hasher
    const merkleRoot: Hash
    var claimedBitMap: map<nat, nat>
    var payments: seq<Attempt>

    function Now(): State
      reads this
    {
      State(claimedBitMap, payments)
    }

    constructor (keccak: Hasher, merkleRoot: Hash)
      ensures Now() == State(map[], []) && this.keccak == keccak && this.merkleRoot == merkleRoot
    {
      this.keccak := keccak;
      this.merkleRoot := merkleRoot;
      claimedBitMap := map[];
      payments := [];
    }

    method IsClaimed(index: uint256) returns (r: bool)
      ensures r <==> Claimed(claimedBitMap, index)
    {
      var claimedWord := Word(claimedBitMap, index / 256);
      var mask := Pow2(index % 256);
      r := BitAnd(claimedWord, mask) == mask;
    }

    method SetClaimed(index: uint256)
      modifies this`claimedBitMap
      ensures forall other: nat ::
                Claimed(claimedBitMap, other) <==> other == index || Claimed(old(claimedBitMap), other)
      ensures claimedBitMap == Mark(old(claimedBitMap), index)
    {
      hide Claimed;
      claimedBitMap := Mark(claimedBitMap, index);
      forall other: nat
        ensures Claimed(claimedBitMap, other) <==> other == index || Claimed(old(claimedBitMap), other)
      {
        MarkExact(old(claimedBitMap), index, other);
      }
    }

    method Claim(attempt: Attempt, transferred: bool) returns (r: Result<(), ClaimError>)
      modifies this
      ensures Now() == Step(keccak, merkleRoot, old(Now()), Call(attempt, transferred))
      ensures var outcome := Outcome(keccak, merkleRoot, old(Now()), Call(attempt, transferred));
              r == if outcome.Ok? then Ok(()) else Err(outcome.error)
    {
      hide Claimed, Mark, Accepts;
      var claimed := IsClaimed(attempt.index);
      if claimed {
        return Err(AlreadyClaimed);
      }
      var ok := BalanceTree.VerifyProof(
        keccak, attempt.index, attempt.account, attempt.amount, attempt.proof, merkleRoot);
      if !ok {
        return Err(InvalidProof);
      }
      var before := claimedBitMap;
      SetClaimed(attempt.index);
      if !transferred {
        claimedBitMap := before;
        return Err(TransferFailed);
      }
      payments := payments + [attempt];
      return Ok(());
    }
  }

  // ---- Words stay words ----

  lemma {:induction false} Pow2Halves(n: nat)
    requires n > 0
    ensures Pow2(n) == 2 * Pow2(n - 1)
  {
  }

  /** Setting a bit below n keeps a number below 2^n. */
  lemma {:induction false} OrBelow(word: nat, bit: nat, n: nat)
    requires word < Pow2(n) && bit < n
    ensures BitOr(word, Pow2(bit)) < Pow2(n)
    decreases bit
  {
    hide BitOr, Pow2;
    HalveOr(word, bit);
    Pow2Halves(n);
    if bit > 0 {
      OrBelow(word / 2, bit - 1, n - 1);
    }
  }

  lemma {:induction false} Pow2Sixteenfold(n: nat)
    ensures Pow2(n + 4) == 16 * Pow2(n)
  {
    assert Pow2(n + 2) == 2 * Pow2(n + 1);
    assert Pow2(n + 4) == 2 * Pow2(n + 3);
  }

  lemma {:induction false} Pow2IsPow256(n: nat)
    ensures Pow2(8 * n) == Pow256(n)
  {
    if n > 0 {
      Pow2IsPow256(n - 1);
      Pow2Sixteenfold(8 * (n - 1));
      Pow2Sixteenfold(8 * (n - 1) + 4);
    }
  }

  /** In every run each word of the bitmap is a uint256: the model's unbounded words never overflow. */
  lemma {:induction false} WordsFit(keccak: Hasher, root: Bytes, calls: seq<Call>, i: nat)
    ensures Word(Run(keccak, root, calls).bitMap, i) < UINT256_LIMIT
  {
    hide Claimed, BitOr, ValidClaim, Pow2;
    if calls != [] {
      var before, call := Run(keccak, root, calls[..|calls| - 1]), calls[|calls| - 1];
      WordsFit(keccak, root, calls[..|calls| - 1], i);
      if i == call.attempt.index / 256 {
        Pow2IsPow256(WORD_LENGTH);
        Uint256Width();
        OrBelow(Word(before.bitMap, i), call.attempt.index % 256, 8 * WORD_LENGTH);
      }
    }
  }

  // ---- Every run pays each index at most once, and only valid claims ----

  ghost predicate DistinctIndices(attempts: seq<Attempt>) {
    forall i, j | 0 <= i < j < |attempts| :: attempts[i].index != attempts[j].index
  }

  ghost predicate AllValidClaims(keccak: Hasher, root: Bytes, attempts: seq<Attempt>) {
    forall i | 0 <= i < |attempts| :: ValidClaim(keccak, root, attempts[i])
  }

  function Indices(attempts: seq<Attempt>): set<nat> {
    set i | 0 <= i < |attempts| :: attempts[i].index as nat
  }

  lemma {:induction false} IndicesGrow(attempts: seq<Attempt>, attempt: Attempt)
    ensures Indices(attempts + [attempt]) == Indices(attempts) + {attempt.index as nat}
  {
    var all := attempts + [attempt];
    assert all[|attempts|] == attempt;
    forall index | index in Indices(attempts) ensures index in Indices(all) {
      var i :| 0 <= i < |attempts| && attempts[i].index as nat == index;
      assert all[i].index as nat == index;
    }
  }

  lemma {:induction false} NoIndices()
    ensures Indices([]) == {}
  {
  }

  lemma {:induction false} IndicesConcat(first: seq<Attempt>, rest: seq<Attempt>)
    ensures Indices(first + rest) == Indices(first) + Indices(rest)
  {
    hide Indices;
    if rest == [] {
      assert first + rest == first;
      NoIndices();
    } else {
      var n := |rest| - 1;
      IndicesConcat(first, rest[..n]);
      assert rest == rest[..n] + [rest[n]] && first + rest == (first + rest[..n]) + [rest[n]];
      IndicesGrow(rest[..n], rest[n]);
      IndicesGrow(first + rest[..n], rest[n]);
    }
  }

  lemma {:induction false} LastIndexNew(init: seq<Attempt>, last: Attempt)
    requires DistinctIndices(init + [last])
    ensures last.index as nat !in Indices(init)
  {
    var all := init + [last];
    forall i | 0 <= i < |init| ensures init[i].index != last.index {
      assert all[i].index != all[|init|].index;
    }
  }

  lemma {:induction false} NothingClaimed(index: nat)
    ensures !Claimed(map[], index)
  {
  }

  lemma {:induction false} RunNothing(keccak: Hasher, root: Bytes)
    ensures Run(keccak, root, []) == State(map[], [])
  {
  }

  lemma {:induction false} RunOneMore(keccak: Hasher, root: Bytes, calls: seq<Call>, call: Call)
    ensures Run(keccak, root, calls + [call]) == Step(keccak, root, Run(keccak, root, calls), call)
  {
    assert (calls + [call])[..|calls|] == calls;
  }

  /**
    Whatever is called, in whatever order: every payment is a valid claim, no two payments share an
    index, and the bitmap marks exactly the paid indices.
   */
  lemma {:induction false} PaidOnce(keccak: Hasher, root: Bytes, calls: seq<Call>)
    ensures var s := Run(keccak, root, calls);
            && AllValidClaims(keccak, root, s.payments)
            && DistinctIndices(s.payments)
            && forall index: nat :: Claimed(s.bitMap, index) <==> index in Indices(s.payments)
  {
    hide Claimed, Mark, Accepts;
    if calls == [] {
      forall index: nat ensures !Claimed(map[], index) {
        NothingClaimed(index);
      }
    } else {
      var before := Run(keccak, root, calls[..|calls| - 1]);
      PaidOnce(keccak, root, calls[..|calls| - 1]);
      var attempt := calls[|calls| - 1].attempt;
      var r := Outcome(keccak, root, before, calls[|calls| - 1]);
      if r.Ok? {
        forall i | 0 <= i < |before.payments| ensures before.payments[i].index != attempt.index {
          assert before.payments[i].index as nat in Indices(before.payments);
        }
        IndicesGrow(before.payments, attempt);
        forall index: nat
          ensures Claimed(r.value.bitMap, index) <==> index in Indices(r.value.payments)
        {
          MarkExact(before.bitMap, attempt.index, index);
        }
      }
    }
  }

  lemma {:induction false} HalveQuotient(word: nat, half: nat, whole: nat)
    requires 0 < half && whole == 2 * half
    ensures (word / 2) / half == word / whole
  {
    var q := (word / 2) / half;
    assert half * q <= word / 2 < half * q + half;
    assert whole * q == 2 * (half * q);
    DivUnique(word, whole, q);
  }

  lemma {:induction false} Pow2OfZero()
    ensures Pow2(0) == 1
  {
  }

  /** Testing a one-bit mask reads that binary digit. */
  lemma {:induction false} MaskIsDigit(word: nat, bit: nat)
    ensures HasMask(word, Pow2(bit)) <==> (word / Pow2(bit)) % 2 == 1
  {
    hide HasMask, Pow2;
    HalveMask(word, bit);
    if bit == 0 {
      Pow2OfZero();
    } else {
      MaskIsDigit(word / 2, bit - 1);
      Pow2Halves(bit);
      HalveQuotient(word, Pow2(bit - 1), Pow2(bit));
    }
  }

  /** In every run binary digit `bit` of word `word` is set just when index 256 * word + bit has been paid. */
  lemma {:induction false} BitmapLayout(keccak: Hasher, root: Bytes, calls: seq<Call>, word: nat, bit: nat)
    requires bit < 256
    ensures var s := Run(keccak, root, calls);
            (Word(s.bitMap, word) / Pow2(bit)) % 2 == 1 <==> 256 * word + bit in Indices(s.payments)
  {
    hide Run, Pow2, HasMask, Indices, Word;
    PaidOnce(keccak, root, calls);
    MaskIsDigit(Word(Run(keccak, root, calls).bitMap, word), bit);
    assert (256 * word + bit) / 256 == word && (256 * word + bit) % 256 == bit;
    assert Claimed(Run(keccak, root, calls).bitMap, 256 * word + bit) <==>
           HasMask(Word(Run(keccak, root, calls).bitMap, word), Pow2(bit));
  }

  /**
    A call after any run: the index has been paid, or else the proof is not accepted, or else the
    transfer fails, or else it is paid. Only in the last case does anything change.
   */
  lemma {:induction false} CallExact(keccak: Hasher, root: Bytes, calls: seq<Call>, call: Call)
    ensures var s, after := Run(keccak, root, calls), Run(keccak, root, calls + [call]);
            var outcome, attempt := Outcome(keccak, root, s, call), call.attempt;
            var paid := attempt.index as nat in Indices(s.payments);
            var valid := Accepts(keccak, root, attempt.index, attempt.account, attempt.amount, attempt.proof);
            && (outcome == Err(AlreadyClaimed) <==> paid)
            && (outcome == Err(InvalidProof) <==> !paid && !valid)
            && (outcome == Err(TransferFailed) <==> !paid && valid && !call.transferred)
            && (outcome.Ok? <==> !paid && valid && call.transferred)
            && (outcome.Err? ==> after == s)
            && (outcome.Ok? ==>
                  && outcome.value == after && after.payments == s.payments + [attempt]
                  && forall other: nat :: Claimed(after.bitMap, other) <==>
                                          other == attempt.index || Claimed(s.bitMap, other))
  {
    hide Claimed, Mark, Accepts, Run;
    PaidOnce(keccak, root, calls);
    RunOneMore(keccak, root, calls, call);
    var s := Run(keccak, root, calls);
    forall other: nat
      ensures Claimed(Mark(s.bitMap, call.attempt.index), other) <==>
              other == call.attempt.index || Claimed(s.bitMap, other)
    {
      MarkExact(s.bitMap, call.attempt.index, other);
    }
  }

  /** A valid claim of index i whose transfer goes through: it pays unless i has been paid already. */
  predicate Payable(keccak: Hasher, root: Bytes, call: Call, i: nat) {
    call.attempt.index == i && ValidClaim(keccak, root, call.attempt) && call.transferred
  }

  ghost predicate PayableAmong(keccak: Hasher, root: Bytes, calls: seq<Call>, i: nat) {
    exists k | 0 <= k < |calls| :: Payable(keccak, root, calls[k], i)
  }

  /** Call k is the first payable one for its index. */
  ghost predicate FirstPayable(keccak: Hasher, root: Bytes, calls: seq<Call>, k: nat) {
    && k < |calls| && Payable(keccak, root, calls[k], calls[k].attempt.index)
    && !PayableAmong(keccak, root, calls[..k], calls[k].attempt.index)
  }

  lemma {:induction false} PayableGrow(keccak: Hasher, root: Bytes, calls: seq<Call>, call: Call, i: nat)
    ensures PayableAmong(keccak, root, calls + [call], i)
       <==> PayableAmong(keccak, root, calls, i) || Payable(keccak, root, call, i)
  {
    hide Payable;
    var all := calls + [call];
    if k :| 0 <= k < |calls| && Payable(keccak, root, calls[k], i) {
      assert all[k] == calls[k];
    }
    if Payable(keccak, root, call, i) {
      assert all[|calls|] == call;
    }
  }

  lemma {:induction false} NothingPayable(keccak: Hasher, root: Bytes, i: nat)
    ensures !PayableAmong(keccak, root, [], i)
  {
  }

  /** An index has been paid just when a payable call for it has been made. */
  lemma {:induction false} PaidIffPayable(keccak: Hasher, root: Bytes, calls: seq<Call>, i: nat)
    ensures i in Indices(Run(keccak, root, calls).payments) <==> PayableAmong(keccak, root, calls, i)
  {
    hide Claimed, Accepts, Run, Indices, PayableAmong;
    if calls == [] {
      NoIndices();
      RunNothing(keccak, root);
      assert !PayableAmong(keccak, root, [], i) by {
        NothingPayable(keccak, root, i);
      }
    } else {
      var init, last := calls[..|calls| - 1], calls[|calls| - 1];
      assert calls == init + [last];
      PaidIffPayable(keccak, root, init, i);
      CallExact(keccak, root, init, last);
      PayableGrow(keccak, root, init, last, i);
      IndicesGrow(Run(keccak, root, init).payments, last.attempt);
    }
  }

  lemma {:induction false} FirstPayableGrow(keccak: Hasher, root: Bytes, calls: seq<Call>, call: Call, k: nat)
    requires k < |calls|
    ensures FirstPayable(keccak, root, calls + [call], k) <==> FirstPayable(keccak, root, calls, k)
  {
    hide Payable, PayableAmong;
    assert (calls + [call])[..k] == calls[..k];
  }

  ghost predicate PaidBy(keccak: Hasher, root: Bytes, calls: seq<Call>, attempt: Attempt) {
    exists k | 0 <= k < |calls| :: FirstPayable(keccak, root, calls, k) && calls[k].attempt == attempt
  }

  lemma {:induction false} PaidByGrow(keccak: Hasher, root: Bytes, calls: seq<Call>, call: Call, attempt: Attempt)
    ensures PaidBy(keccak, root, calls + [call], attempt) <==>
              || PaidBy(keccak, root, calls, attempt)
              || (FirstPayable(keccak, root, calls + [call], |calls|) && call.attempt == attempt)
  {
    hide FirstPayable;
    var all := calls + [call];
    if k :| 0 <= k < |calls| && FirstPayable(keccak, root, calls, k) && calls[k].attempt == attempt {
      FirstPayableGrow(keccak, root, calls, call, k);
      assert all[k] == calls[k];
    }
    if k :| 0 <= k < |all| && FirstPayable(keccak, root, all, k) && all[k].attempt == attempt {
      if k < |calls| {
        FirstPayableGrow(keccak, root, calls, call, k);
        assert all[k] == calls[k];
      }
    }
    assert all[|calls|] == call;
  }

  /** A run pays, of all the calls made, the first payable one for each index and nothing else. */
  lemma {:induction false} PaymentsExact(keccak: Hasher, root: Bytes, calls: seq<Call>, attempt: Attempt)
    ensures attempt in Run(keccak, root, calls).payments <==> PaidBy(keccak, root, calls, attempt)
  {
    hide Claimed, Accepts, Run, Indices, PayableAmong;
    if calls == [] {
      RunNothing(keccak, root);
    } else {
      var init, last := calls[..|calls| - 1], calls[|calls| - 1];
      assert calls == init + [last] && calls[..|init|] == init;
      PaymentsExact(keccak, root, init, attempt);
      CallExact(keccak, root, init, last);
      PaidIffPayable(keccak, root, init, last.attempt.index);
      PaidByGrow(keccak, root, init, last, attempt);
    }
  }

  /** After any run, valid claims with distinct unpaid indices are all paid, in the order they are made. */
  lemma {:induction false} UnpaidClaimsPay(
      keccak: Hasher, root: Bytes, before: seq<Call>, calls: seq<Call>, attempts: seq<Attempt>)
    requires |calls| == |attempts| && AllValidClaims(keccak, root, attempts) && DistinctIndices(attempts)
    requires forall i | 0 <= i < |calls| :: calls[i] == Call(attempts[i], true)
    requires Indices(attempts) !! Indices(Run(keccak, root, before).payments)
    ensures Run(keccak, root, before + calls).payments == Run(keccak, root, before).payments + attempts
  {
    hide Claimed, Mark, Accepts, Run;
    if calls == [] {
      assert before + calls == before;
    } else {
      var n := |calls| - 1;
      var init, last, paid := attempts[..n], attempts[n], Run(keccak, root, before).payments;
      assert attempts == init + [last] && before + calls == (before + calls[..n]) + [calls[n]];
      IndicesGrow(init, last);
      UnpaidClaimsPay(keccak, root, before, calls[..n], init);
      PaidOnce(keccak, root, before + calls[..n]);
      RunOneMore(keccak, root, before + calls[..n], calls[n]);
      LastIndexNew(init, last);
      IndicesConcat(paid, init);
      assert ValidClaim(keccak, root, attempts[n]);
    }
  }
}
