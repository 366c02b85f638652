/** `groupRewards`: one "monthly" row per transaction, and a running total of points per
    customer, keyed by the customer id as JavaScript turns it into a property name. */
module RewardsTable {
  import opened Text
  import opened Dates
  import opened Values
  import opened Rewards

  /** An entry of `totalRewards`. */
  datatype Total = Total(customerId: Value, customerName: Value, points: int)

  /** The property name `totalRewards[txn.customerId]` uses. */
  function CustomerKey(txn: Row): string
  {
    ToText(Get(txn, "customerId"))
  }

  function Points(txn: Row): int
  {
    CalculatePoints(Get(txn, "amount"))
  }

  /** An entry of `monthlyRewards`. */
  datatype MonthlyReward = MonthlyReward(customerId: Value, customerName: Value, month: string, year: Value, points: int)

  /** The entry pushed for one transaction: its customer, the short month name and the year
      of its date ("Invalid Date" and NaN for an invalid date), and its points. */
  function MonthlyRow(parse: DateParser, txn: Row): (m: MonthlyReward)
    ensures m.customerId == Get(txn, "customerId") && m.customerName == Get(txn, "customerName")
    ensures m.points == Points(txn)
    ensures NewDate(parse, Get(txn, "date")).InvalidDate? ==> m.month == "Invalid Date" && m.year == NaN
  {
    var date := NewDate(parse, Get(txn, "date"));
    var year := if date.Time? then Num(CivilOf(date.ms).year as real) else NaN;
    MonthlyReward(Get(txn, "customerId"), Get(txn, "customerName"), MonthShortName(date), year, Points(txn))
  }

  /** The entry as a table row, with the five fields the monthly table's columns name. */
  function MonthlyAsRow(m: MonthlyReward): (row: Row)
    ensures row.Keys == {"customerId", "customerName", "month", "year", "points"}
  {
    map["customerId" := m.customerId, "customerName" := m.customerName, "month" := Str(m.month),
        "year" := m.year, "points" := Num(m.points as real)]
  }

  /** The entry as a table row, with the three fields the totals table's columns name. */
  function TotalAsRow(t: Total): (row: Row)
    ensures row.Keys == {"customerId", "customerName", "points"}
  {
    map["customerId" := t.customerId, "customerName" := t.customerName, "points" := Num(t.points as real)]
  }

  /** `monthlyRewards`: exactly one row per transaction, in input order. */
  function MonthlyRows(parse: DateParser, txns: seq<Row>): (rows: seq<MonthlyReward>)
    ensures |rows| == |txns| && forall i :: 0 <= i < |txns| ==> rows[i] == MonthlyRow(parse, txns[i])
    decreases |txns|
  {
    if txns == [] then []
    else
      var init := txns[..|txns| - 1];
      assert forall i :: 0 <= i < |init| ==> init[i] == txns[i];
      MonthlyRows(parse, init) + [MonthlyRow(parse, txns[|txns| - 1])]
  }

  /** `totalRewards[key]` is created from the customer id and name if it is missing, then
      the points are added to it. */
  function AddPoints(totals: map<string, Total>, key: string, customerId: Value, customerName: Value, points: int): map<string, Total>
  {
    var entry := if key in totals then totals[key] else Total(customerId, customerName, 0);
    totals[key := entry.(points := entry.points + points)]
  }

  /** One step of the loop on the totals. */
  function AddToTotals(totals: map<string, Total>, txn: Row): map<string, Total>
  {
    AddPoints(totals, CustomerKey(txn), Get(txn, "customerId"), Get(txn, "customerName"), Points(txn))
  }

  /** `totalRewards` after the transactions txns. */
  function TotalsOf(txns: seq<Row>): map<string, Total>
    decreases |txns|
  {
    if txns == [] then map[] else AddToTotals(TotalsOf(txns[..|txns| - 1]), txns[|txns| - 1])
  }

  /** `groupRewards(transactions)`: the loop pushes a monthly row per transaction and
      keeps the per-customer totals up to date. */
  method GroupRewards(parse: DateParser, transactions: seq<Row>) returns (monthly: seq<MonthlyReward>, totals: map<string, Total>)
    ensures monthly == MonthlyRows(parse, transactions)
    ensures totals == TotalsOf(transactions)
  {
    monthly := [];
    totals := map[];
    var i := 0;
    while i < |transactions|
      invariant 0 <= i <= |transactions|
      invariant monthly == MonthlyRows(parse, transactions[..i])
      invariant totals == TotalsOf(transactions[..i])
    {
      var txn := transactions[i];
      var entry := MonthlyRow(parse, txn);
      monthly, totals := RecordTransaction(entry, CustomerKey(txn), monthly, totals);
      TotalsOfStep(transactions, i);
      assert transactions[..i + 1][..i] == transactions[..i];
      i := i + 1;
    }
    assert transactions[..i] == transactions;
  }

  /** What the loop does with one transaction's entry: push it; create the customer's total
      from it if there is none; add its points to that total. */
  method RecordTransaction(entry: MonthlyReward, key: string, monthly: seq<MonthlyReward>, totals: map<string, Total>)
    returns (monthly': seq<MonthlyReward>, totals': map<string, Total>)
    ensures monthly' == monthly + [entry]
    ensures totals' == AddPoints(totals, key, entry.customerId, entry.customerName, entry.points)
  {
    monthly' := monthly + [entry];
    totals' := totals;
    if key !in totals' {
      totals' := totals'[key := Total(entry.customerId, entry.customerName, 0)];
    }
    totals' := totals'[key := totals'[key].(points := totals'[key].points + entry.points)];
  }

  lemma TotalsOfStep(txns: seq<Row>, i: nat)
    requires i < |txns|
    ensures TotalsOf(txns[..i + 1]) == AddToTotals(TotalsOf(txns[..i]), txns[i])
  {
    assert txns[..i + 1][..i] == txns[..i];
  }

  /** The distinct customer keys in the order their first transaction comes. */
  function FirstSeenKeys(txns: seq<Row>): seq<string>
    decreases |txns|
  {
    if txns == [] then []
    else
      var keys := FirstSeenKeys(txns[..|txns| - 1]);
      var key := CustomerKey(txns[|txns| - 1]);
      if key in keys then keys else keys + [key]
  }

  predicate HasCustomerAt(txns: seq<Row>, key: string, i: int)
  {
    0 <= i < |txns| && CustomerKey(txns[i]) == key
  }

  /** The points of the customer's transactions. */
  function CustomerPoints(txns: seq<Row>, key: string): int
    decreases |txns|
  {
    if txns == [] then 0
    else
      var last := txns[|txns| - 1];
      CustomerPoints(txns[..|txns| - 1], key) + (if CustomerKey(last) == key then Points(last) else 0)
  }

  /** The points of all transactions. */
  function AllPoints(txns: seq<Row>): int
    decreases |txns|
  {
    if txns == [] then 0 else AllPoints(txns[..|txns| - 1]) + Points(txns[|txns| - 1])
  }

  predicate Distinct(keys: seq<string>)
  {
    forall i, j :: 0 <= i < j < |keys| ==> keys[i] != keys[j]
  }

  /** The sum of the totals' points over a list of their keys. */
  function SumOver(totals: map<string, Total>, keys: seq<string>): int
    requires forall k :: k in keys ==> k in totals
    decreases |keys|
  {
    if keys == [] then 0 else SumOver(totals, keys[..|keys| - 1]) + totals[keys[|keys| - 1]].points
  }

  /** There is exactly one total per distinct customer: its keys are the customers that
      occur, each listed once in the order of first appearance; no transactions, no totals. */
  lemma {:induction false} TotalsKeys(txns: seq<Row>, key: string)
    ensures key in TotalsOf(txns) <==> key in FirstSeenKeys(txns)
    ensures key in FirstSeenKeys(txns) <==> exists i :: HasCustomerAt(txns, key, i)
    ensures Distinct(FirstSeenKeys(txns))
    ensures txns == [] ==> TotalsOf(txns) == map[]
    decreases |txns|
  {
    if txns != [] {
      var init := txns[..|txns| - 1];
      TotalsKeys(init, key);
      TotalsKeys(init, CustomerKey(txns[|txns| - 1]));
      if i :| HasCustomerAt(init, key, i) {
        assert HasCustomerAt(txns, key, i);
      }
      assert HasCustomerAt(txns, CustomerKey(txns[|txns| - 1]), |txns| - 1);
      if i :| HasCustomerAt(txns, key, i) {
        if i < |txns| - 1 {
          assert HasCustomerAt(init, key, i);
        }
      }
    }
  }

  /** A customer's total is the sum of the points of that customer's transactions, that is
      of the points on that customer's monthly rows. */
  lemma {:induction false} TotalIsCustomerSum(txns: seq<Row>, key: string)
    requires key in TotalsOf(txns)
    ensures TotalsOf(txns)[key].points == CustomerPoints(txns, key)
    decreases |txns|
  {
    var init := txns[..|txns| - 1];
    if key in TotalsOf(init) {
      TotalIsCustomerSum(init, key);
    } else {
      TotalsKeys(init, key);
      NoTransactionsNoPoints(init, key);
    }
  }

  lemma {:induction false} NoTransactionsNoPoints(txns: seq<Row>, key: string)
    requires forall i :: !HasCustomerAt(txns, key, i)
    ensures CustomerPoints(txns, key) == 0
    decreases |txns|
  {
    if txns != [] {
      var init := txns[..|txns| - 1];
      forall i ensures !HasCustomerAt(init, key, i) {
        if 0 <= i < |init| {
          assert init[i] == txns[i];
          assert !HasCustomerAt(txns, key, i);
        }
      }
      NoTransactionsNoPoints(init, key);
      assert !HasCustomerAt(txns, key, |txns| - 1);
    }
  }

  /** A total's customer id and name come from the customer's first transaction. */
  lemma {:induction false} TotalNamedByFirstTransaction(txns: seq<Row>, i: int)
    requires 0 <= i < |txns|
    requires forall j :: 0 <= j < i ==> CustomerKey(txns[j]) != CustomerKey(txns[i])
    ensures CustomerKey(txns[i]) in TotalsOf(txns)
    ensures TotalsOf(txns)[CustomerKey(txns[i])].customerId == Get(txns[i], "customerId")
    ensures TotalsOf(txns)[CustomerKey(txns[i])].customerName == Get(txns[i], "customerName")
    decreases |txns|
  {
    var init := txns[..|txns| - 1];
    var key := CustomerKey(txns[i]);
    if i == |txns| - 1 {
      TotalsKeys(init, key);
      if j :| HasCustomerAt(init, key, j) {
        assert false;
      }
    } else {
      assert init[i] == txns[i];
      TotalNamedByFirstTransaction(init, i);
    }
  }

  /** Summing over a list of keys after adding d at one of them adds d. */
  lemma {:induction false} SumOverBump(totals: map<string, Total>, keys: seq<string>, key: string, d: int)
    requires forall k :: k in keys ==> k in totals
    requires key in totals && Distinct(keys)
    ensures var bumped := totals[key := totals[key].(points := totals[key].points + d)];
      SumOver(bumped, keys) == SumOver(totals, keys) + (if key in keys then d else 0)
    decreases |keys|
  {
    if keys != [] {
      var init := keys[..|keys| - 1];
      assert forall k :: k in init ==> k in keys;
      SumOverBump(totals, init, key, d);
      assert key in keys <==> key in init || key == keys[|keys| - 1];
      if key == keys[|keys| - 1] {
        assert key !in init;
      }
    }
  }

  /** Summing over keys not touched by an update is unaffected by it. */
  lemma {:induction false} SumOverFresh(totals: map<string, Total>, keys: seq<string>, key: string, t: Total)
    requires forall k :: k in keys ==> k in totals
    requires key !in keys
    ensures SumOver(totals[key := t], keys) == SumOver(totals, keys)
    decreases |keys|
  {
    if keys != [] {
      SumOverFresh(totals, keys[..|keys| - 1], key, t);
    }
  }

  /** Every first-seen key has a total, and none is listed twice. */
  lemma KeysHaveTotals(txns: seq<Row>)
    ensures forall k :: k in FirstSeenKeys(txns) ==> k in TotalsOf(txns)
    ensures Distinct(FirstSeenKeys(txns))
  {
    forall k | k in FirstSeenKeys(txns) ensures k in TotalsOf(txns) {
      TotalsKeys(txns, k);
    }
    TotalsKeys(txns, "");
  }

  /** Adding points at a key adds them to the sum over the keys, the key being appended to
      the list when it is new. */
  lemma SumOverAddPoints(totals: map<string, Total>, keys: seq<string>, key: string, customerId: Value, customerName: Value, points: int)
    requires forall k :: k in keys ==> k in totals
    requires Distinct(keys) && (key in totals <==> key in keys)
    ensures var keys' := if key in keys then keys else keys + [key];
      var totals' := AddPoints(totals, key, customerId, customerName, points);
      (forall k :: k in keys' ==> k in totals') && SumOver(totals', keys') == SumOver(totals, keys) + points
  {
    if key in totals {
      SumOverBump(totals, keys, key, points);
    } else {
      var created := totals[key := Total(customerId, customerName, 0)];
      SumOverFresh(totals, keys, key, created[key]);
      SumOverBump(created, keys, key, points);
      var bumped := created[key := created[key].(points := created[key].points + points)];
      assert AddPoints(totals, key, customerId, customerName, points) == bumped;
      assert (keys + [key])[..|keys|] == keys;
      assert SumOver(bumped, keys + [key]) == SumOver(bumped, keys) + points;
    }
  }

  /** One transaction more adds its points to the sum of the totals. */
  lemma TotalsSumStep(txns: seq<Row>, init: seq<Row>)
    requires txns != [] && init == txns[..|txns| - 1]
    ensures forall k :: k in FirstSeenKeys(txns) ==> k in TotalsOf(txns)
    ensures forall k :: k in FirstSeenKeys(init) ==> k in TotalsOf(init)
    ensures SumOver(TotalsOf(txns), FirstSeenKeys(txns)) == SumOver(TotalsOf(init), FirstSeenKeys(init)) + Points(txns[|txns| - 1])
  {
    var last := txns[|txns| - 1];
    KeysHaveTotals(init);
    TotalsKeys(init, CustomerKey(last));
    SumOverAddPoints(TotalsOf(init), FirstSeenKeys(init), CustomerKey(last), Get(last, "customerId"), Get(last, "customerName"), Points(last));
  }

  /** The totals together hold every point the monthly rows hold. */
  lemma {:induction false} TotalsSumToAllPoints(txns: seq<Row>)
    ensures forall k :: k in FirstSeenKeys(txns) ==> k in TotalsOf(txns)
    ensures SumOver(TotalsOf(txns), FirstSeenKeys(txns)) == AllPoints(txns)
    decreases |txns|
  {
    KeysHaveTotals(txns);
    if txns != [] {
      TotalsSumToAllPoints(txns[..|txns| - 1]);
      TotalsSumStep(txns, txns[..|txns| - 1]);
    }
  }

  /** The points of the monthly entries of the customer with the given key. */
  function EntryPoints(entries: seq<MonthlyReward>, key: string): int
    decreases |entries|
  {
    if entries == [] then 0
    else
      var last := entries[|entries| - 1];
      EntryPoints(entries[..|entries| - 1], key) + (if ToText(last.customerId) == key then last.points else 0)
  }

  /** Summed per customer, the monthly entries give the same points as the transactions, so
      each total equals the sum of that customer's monthly points. */
  lemma {:induction false} MonthlyPointsMatch(parse: DateParser, txns: seq<Row>, key: string)
    ensures EntryPoints(MonthlyRows(parse, txns), key) == CustomerPoints(txns, key)
    ensures key in TotalsOf(txns) ==> TotalsOf(txns)[key].points == EntryPoints(MonthlyRows(parse, txns), key)
    decreases |txns|
  {
    if txns != [] {
      var init := txns[..|txns| - 1];
      MonthlyPointsMatch(parse, init, key);
      var rows := MonthlyRows(parse, txns);
      assert rows[..|rows| - 1] == MonthlyRows(parse, init);
    }
    if key in TotalsOf(txns) {
      TotalIsCustomerSum(txns, key);
    }
  }
}
