/**
  `parseBalanceMap` on the input it is given: rows in the new format as they stand, entries of the
  old one as it reads them.
 */
module InputProperties {
  import opened Wrappers
  import opened Errors
  import opened Buffers
  import opened BalanceTrees
  import opened BalanceMaps
  import opened BalanceMapProperties

  // ---- The new format ----

  ghost predicate Acceptable(env: Env, rows: seq<Row>) {
    rows != [] && AllGood(env, rows) && DistinctKeys(env, rows) && AmountsFit(env, rows)
  }

  /**
    Rows in the new format count as they stand: they are accepted just when they are acceptable and
    then have one claim each, with the row's own amount and flags; otherwise the exception is the
    one they deserve.
   */
  lemma {:induction false} NewFormatExact(env: Env, rows: Rows)
    requires env.Lawful()
    ensures var r := Parsed(env, InNewFormat(env, NewFormat(rows)));
            && (r.Ok? <==> Acceptable(env, rows))
            && (r.Ok? ==>
                  && |r.value.claims| == |rows|
                  && forall i | 0 <= i < |rows| :: ClaimOfRow(env, rows[i], r.value.claims))
            && (forall error :: r == Err(error) <==> Rejects(env, rows, error))
  {
    hide Parsed, AllGood, DistinctKeys, AmountsFit, GoodRow, ClaimOfRow, IndexedInOrder, SumRows, SumOver, Rejects;
    Acceptance(env, rows);
    forall error ensures Parsed(env, rows) == Err(error) <==> Rejects(env, rows, error) {
      RejectionExact(env, rows, error);
    }
    if Parsed(env, rows).Ok? {
      Conservation(env, rows);
    }
  }

  // ---- The old format ----

  /** What an old-format value stands for: the number itself, or what its text says after `0x`. */
  ghost function OldAmount(env: Env, value: OldValue): Option<int> {
    match value
    case Number(n) => Some(n)
    case Text(text) => env.bigNumber("0x" + text)
  }

  /** A valid account with a positive amount. */
  ghost predicate GoodOldEntry(env: Env, entry: OldEntry) {
    && env.decode(entry.account).Some?
    && OldAmount(env, entry.value).Some? && OldAmount(env, entry.value).value > 0
  }

  ghost predicate OldAllGood(env: Env, entries: seq<OldEntry>) {
    forall i | 0 <= i < |entries| :: GoodOldEntry(env, entries[i])
  }

  ghost predicate DistinctAccounts(env: Env, entries: seq<OldEntry>) {
    forall i, j | 0 <= i < j < |entries| :: env.decode(entries[i].account) != env.decode(entries[j].account)
  }

  ghost predicate OldAmountsFit(env: Env, entries: seq<OldEntry>)
    requires OldAllGood(env, entries)
  {
    forall i | 0 <= i < |entries| :: OldAmount(env, entries[i].value).value < Pow256(WORD_LENGTH)
  }

  ghost predicate OldAcceptable(env: Env, entries: seq<OldEntry>) {
    && entries != [] && OldAllGood(env, entries) && DistinctAccounts(env, entries)
    && OldAmountsFit(env, entries)
  }

  /** An old-format entry's claim, found under its checksummed account: its amount, and no flags. */
  ghost predicate OldClaim(env: Env, entry: OldEntry, claims: map<string, Claim>)
    requires GoodOldEntry(env, entry)
  {
    var key := env.checksum(env.decode(entry.account).value);
    && key in claims && claims[key].flags == None
    && claims[key].amount == env.toHexString(OldAmount(env, entry.value).value)
  }

  ghost predicate AccountSeen(env: Env, before: seq<OldEntry>, entry: OldEntry) {
    exists i | 0 <= i < |before| :: env.decode(before[i].account) == env.decode(entry.account)
  }

  /** The exception an entry deserves after the accepted entries `before`; a number always parses. */
  ghost predicate OldBlames(env: Env, before: seq<OldEntry>, entry: OldEntry, error: Error) {
    var account := env.decode(entry.account);
    if account.None? then
      error == InvalidAddress(entry.account)
    else if AccountSeen(env, before, entry) then
      error == DuplicateAddress(env.checksum(account.value))
    else if OldAmount(env, entry.value).None? then
      entry.value.Text? && error == InvalidNumber("0x" + entry.value.text)
    else
      OldAmount(env, entry.value).value <= 0 && error == InvalidAmount(entry.account)
  }

  /** Entry n is the first at fault, and `error` names its first fault. */
  ghost predicate OldBlamesAt(env: Env, entries: seq<OldEntry>, n: nat, error: Error) {
    && n < |entries| && OldAllGood(env, entries[..n]) && DistinctAccounts(env, entries[..n])
    && OldBlames(env, entries[..n], entries[n], error)
  }

  ghost predicate OldRejects(env: Env, entries: seq<OldEntry>, error: Error) {
    || (entries == [] && error == EmptyTree)
    || (&& OldAllGood(env, entries) && DistinctAccounts(env, entries) && !OldAmountsFit(env, entries)
        && error == ValueOutOfRange)
    || exists n: nat :: OldBlamesAt(env, entries, n, error)
  }

  function RowsOf(env: Env, entries: seq<OldEntry>): seq<Row> {
    InNewFormat(env, OldFormat(entries))
  }

  lemma {:induction false} OldRowGood(env: Env, entry: OldEntry)
    requires env.Lawful()
    ensures var row := OldRow(env, entry);
            && row.address == entry.account && row.reasons == ""
            && env.bigNumber(row.earnings) == OldAmount(env, entry.value)
            && (GoodRow(env, row) <==> GoodOldEntry(env, entry))
            && (entry.value.Text? ==> row.earnings == "0x" + entry.value.text)
  {
  }

  lemma {:induction false} SameKeySameAccount(env: Env, first: OldEntry, second: OldEntry)
    requires env.Lawful() && GoodRow(env, OldRow(env, first)) && env.decode(second.account).Some?
    ensures KeyOf(env, OldRow(env, first)) == env.checksum(env.decode(second.account).value)
       <==> env.decode(first.account) == env.decode(second.account)
  {
    hide GoodOldEntry, OldAmount;
    OldRowGood(env, first);
    assert env.decode(env.checksum(env.decode(first.account).value)) == env.decode(first.account);
    assert env.decode(env.checksum(env.decode(second.account).value)) == env.decode(second.account);
  }

  lemma {:induction false} RowsAlike(env: Env, entries: seq<OldEntry>)
    requires env.Lawful()
    ensures OldAllGood(env, entries) <==> AllGood(env, RowsOf(env, entries))
  {
    hide GoodRow, OldRow, GoodOldEntry, OldAmount;
    var rows := RowsOf(env, entries);
    forall i | 0 <= i < |entries| ensures GoodRow(env, rows[i]) <==> GoodOldEntry(env, entries[i]) {
      OldRowGood(env, entries[i]);
    }
    if !AllGood(env, rows) {
      var i :| 0 <= i < |rows| && !GoodRow(env, rows[i]);
      assert !GoodOldEntry(env, entries[i]);
    }
  }

  lemma {:induction false} AccountsAlike(env: Env, entries: seq<OldEntry>)
    requires env.Lawful() && AllGood(env, RowsOf(env, entries))
    ensures DistinctAccounts(env, entries) <==> DistinctKeys(env, RowsOf(env, entries))
  {
    hide GoodRow, KeyOf, OldRow, OldAmount;
    var rows := RowsOf(env, entries);
    RowsAlike(env, entries);
    forall i, j | 0 <= i < j < |rows|
      ensures KeyOf(env, rows[i]) == KeyOf(env, rows[j])
         <==> env.decode(entries[i].account) == env.decode(entries[j].account)
    {
      assert GoodRow(env, rows[i]) && GoodRow(env, rows[j]);
      assert GoodOldEntry(env, entries[j]);
      SameKeySameAccount(env, entries[i], entries[j]);
      SameKeySameAccount(env, entries[j], entries[j]);
    }
  }

  lemma {:induction false} AmountsAlike(env: Env, entries: seq<OldEntry>)
    requires env.Lawful() && OldAllGood(env, entries) && AllGood(env, RowsOf(env, entries))
    ensures OldAmountsFit(env, entries) <==> AmountsFit(env, RowsOf(env, entries))
  {
    hide OldRow, OldAmount, Pow256;
    var rows := RowsOf(env, entries);
    forall i | 0 <= i < |entries|
      ensures GoodRow(env, rows[i]) && GoodOldEntry(env, entries[i])
      ensures env.bigNumber(rows[i].earnings).value == OldAmount(env, entries[i].value).value
    {
      OldRowGood(env, entries[i]);
    }
    if OldAmountsFit(env, entries) {
      forall i | 0 <= i < |rows| ensures env.bigNumber(rows[i].earnings).value < Pow256(WORD_LENGTH) {
        assert OldAmount(env, entries[i].value).value < Pow256(WORD_LENGTH);
      }
    }
  }

  lemma {:induction false} AccountSeenAlike(env: Env, before: seq<OldEntry>, entry: OldEntry)
    requires env.Lawful() && AllGood(env, RowsOf(env, before)) && env.decode(entry.account).Some?
    ensures env.checksum(env.decode(entry.account).value) in KeysOf(env, RowsOf(env, before))
       <==> AccountSeen(env, before, entry)
  {
    hide GoodRow, KeyOf, OldRow;
    var rows, key := RowsOf(env, before), env.checksum(env.decode(entry.account).value);
    forall i | 0 <= i < |before|
      ensures KeysOf(env, rows)[i] == key <==> env.decode(before[i].account) == env.decode(entry.account)
    {
      assert GoodRow(env, rows[i]);
      SameKeySameAccount(env, before[i], entry);
    }
    if key in KeysOf(env, rows) {
      var i :| 0 <= i < |before| && KeysOf(env, rows)[i] == key;
      assert env.decode(before[i].account) == env.decode(entry.account);
    }
  }

  lemma {:induction false} BlamesAlike(env: Env, before: seq<OldEntry>, entry: OldEntry, error: Error)
    requires env.Lawful() && AllGood(env, RowsOf(env, before))
    ensures OldBlames(env, before, entry, error)
       <==> Blames(env, RowsOf(env, before), OldRow(env, entry), error)
  {
    hide KeysOf, RowsOf, AllGood, AccountSeen;
    if env.decode(entry.account).Some? {
      AccountSeenAlike(env, before, entry);
    }
  }

  lemma {:induction false} BlamesAtAlike(env: Env, entries: seq<OldEntry>, n: nat, error: Error)
    requires env.Lawful()
    ensures OldBlamesAt(env, entries, n, error) <==> BlamesAt(env, RowsOf(env, entries), n, error)
  {
    hide OldAllGood, AllGood, DistinctAccounts, DistinctKeys, OldBlames, Blames, OldRow;
    if n < |entries| {
      var before := entries[..n];
      assert RowsOf(env, entries)[..n] == RowsOf(env, before);
      RowsAlike(env, before);
      if AllGood(env, RowsOf(env, before)) {
        AccountsAlike(env, before);
        BlamesAlike(env, before, entries[n], error);
      }
    }
  }

  lemma {:induction false} RejectsAlike(env: Env, entries: seq<OldEntry>, error: Error)
    requires env.Lawful()
    ensures OldRejects(env, entries, error) <==> Rejects(env, RowsOf(env, entries), error)
  {
    hide OldAllGood, AllGood, DistinctAccounts, DistinctKeys, OldAmountsFit, AmountsFit, OldBlamesAt, BlamesAt;
    var rows := RowsOf(env, entries);
    RowsAlike(env, entries);
    if AllGood(env, rows) {
      AccountsAlike(env, entries);
      AmountsAlike(env, entries);
    }
    forall n: nat ensures OldBlamesAt(env, entries, n, error) <==> BlamesAt(env, rows, n, error) {
      BlamesAtAlike(env, entries, n, error);
    }
  }

  lemma {:induction false} AcceptableAlike(env: Env, entries: seq<OldEntry>)
    requires env.Lawful()
    ensures OldAcceptable(env, entries) <==> Acceptable(env, RowsOf(env, entries))
  {
    hide OldAllGood, AllGood, DistinctAccounts, DistinctKeys, OldAmountsFit, AmountsFit;
    RowsAlike(env, entries);
    if AllGood(env, RowsOf(env, entries)) {
      AccountsAlike(env, entries);
      AmountsAlike(env, entries);
    }
  }

  lemma {:induction false} ClaimAlike(env: Env, entry: OldEntry, claims: map<string, Claim>)
    requires env.Lawful() && GoodRow(env, OldRow(env, entry)) && ClaimOfRow(env, OldRow(env, entry), claims)
    ensures GoodOldEntry(env, entry) && OldClaim(env, entry, claims)
  {
    hide OldRow, OldAmount, Occurs;
    OldRowGood(env, entry);
  }

  lemma {:induction false} ClaimsAlike(env: Env, entries: seq<OldEntry>, claims: map<string, Claim>)
    requires env.Lawful()
    requires forall i | 0 <= i < |entries| ::
               GoodRow(env, RowsOf(env, entries)[i]) && ClaimOfRow(env, RowsOf(env, entries)[i], claims)
    ensures forall i | 0 <= i < |entries| :: GoodOldEntry(env, entries[i]) && OldClaim(env, entries[i], claims)
  {
    hide GoodRow, GoodOldEntry, ClaimOfRow, OldClaim, OldRow;
    forall i | 0 <= i < |entries| ensures GoodOldEntry(env, entries[i]) && OldClaim(env, entries[i], claims) {
      assert GoodRow(env, RowsOf(env, entries)[i]);
      ClaimAlike(env, entries[i], claims);
    }
  }

  /**
    The old format is accepted just when it lists distinct valid accounts with positive uint256
    amounts, and then publishes one claim per entry with its amount and without flags; otherwise the
    first entry at fault, in the order given, is blamed for its first fault.
   */
  lemma {:induction false} OldFormatExact(env: Env, entries: seq<OldEntry>)
    requires env.Lawful() && |entries| <= UINT256_LIMIT
    ensures var r := Parsed(env, InNewFormat(env, OldFormat(entries)));
            && (r.Ok? <==> OldAcceptable(env, entries))
            && (r.Ok? ==>
                  && |r.value.claims| == |entries|
                  && forall i | 0 <= i < |entries| :: OldClaim(env, entries[i], r.value.claims))
            && (forall error :: r == Err(error) <==> OldRejects(env, entries, error))
  {
    hide Parsed, AllGood, DistinctKeys, AmountsFit, GoodRow, GoodOldEntry, ClaimOfRow, OldClaim, OldRow;
    hide OldAllGood, DistinctAccounts, OldAmountsFit, IndexedInOrder, SumRows, SumOver, Rejects, OldRejects;
    var rows := RowsOf(env, entries);
    Acceptance(env, rows);
    AcceptableAlike(env, entries);
    forall error ensures Parsed(env, rows) == Err(error) <==> OldRejects(env, entries, error) {
      RejectionExact(env, rows, error);
      RejectsAlike(env, entries, error);
    }
    if Parsed(env, rows).Ok? {
      Conservation(env, rows);
      ClaimsAlike(env, entries, Parsed(env, rows).value.claims);
    }
  }
}
