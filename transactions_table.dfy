/** `TransactionsTable`: every transaction becomes a table row carrying its reward points. */
module TransactionsTable {
  import opened Dates
  import opened Values
  import opened Rewards

  /** The table's columns, in display order. */
  const Columns: seq<Column> := [
    Column("transactionId", "Transaction ID"),
    Column("customerName", "Customer Name"),
    Column("date", "Purchase Date"),
    Column("product", "Product Purchased"),
    Column("amount", "Price ($)"),
    Column("points", "Reward Points")
  ]

  /** A row holding the six displayed fields. */
  function DisplayRow(id: Value, name: Value, date: Value, product: Value, amount: Value, points: Value): Row
  {
    map["transactionId" := id, "customerName" := name, "date" := date,
        "product" := product, "amount" := amount, "points" := points]
  }

  /** The row built for one transaction. */
  function TransactionRow(parse: DateParser, txn: Row): Row
  {
    DisplayRow(Get(txn, "transactionId"), Get(txn, "customerName"),
      Str(LocaleDateString(NewDate(parse, Get(txn, "date")))), Get(txn, "product"),
      Get(txn, "amount"), Num(CalculatePoints(Get(txn, "amount")) as real))
  }

  /** `transactionsWithPoints`: one row per transaction, in input order. */
  function TransactionRows(parse: DateParser, transactions: seq<Row>): (rows: seq<Row>)
    ensures |rows| == |transactions|
    ensures forall i :: 0 <= i < |rows| ==> rows[i] == TransactionRow(parse, transactions[i])
  {
    seq(|transactions|, i requires 0 <= i < |transactions| => TransactionRow(parse, transactions[i]))
  }

  /** The six column keys. */
  lemma ColumnKeysAre()
    ensures ColumnKeys(Columns) == {"transactionId", "customerName", "date", "product", "amount", "points"}
  {
    assert Columns[0].key == "transactionId" && Columns[1].key == "customerName" && Columns[2].key == "date";
    assert Columns[3].key == "product" && Columns[4].key == "amount" && Columns[5].key == "points";
    assert forall c :: c in Columns ==>
      c == Columns[0] || c == Columns[1] || c == Columns[2] || c == Columns[3] || c == Columns[4] || c == Columns[5];
  }

  /** Each row has exactly the fields the columns name, so customerId is dropped. */
  lemma TransactionRowKeys(parse: DateParser, txn: Row)
    ensures TransactionRow(parse, txn).Keys == ColumnKeys(Columns)
    ensures "customerId" !in TransactionRow(parse, txn)
  {
    ColumnKeysAre();
    DisplayRowKeys(Get(txn, "transactionId"), Get(txn, "customerName"),
      Str(LocaleDateString(NewDate(parse, Get(txn, "date")))), Get(txn, "product"),
      Get(txn, "amount"), Num(CalculatePoints(Get(txn, "amount")) as real));
  }

  lemma DisplayRowKeys(id: Value, name: Value, date: Value, product: Value, amount: Value, points: Value)
    ensures DisplayRow(id, name, date, product, amount, points).Keys
      == {"transactionId", "customerName", "date", "product", "amount", "points"}
  {
  }

  /** Each row copies the id, name, product and amount, shows the date as month/day/year,
      and carries the points of its amount. */
  lemma TransactionRowValues(parse: DateParser, txn: Row)
    ensures var row := TransactionRow(parse, txn);
      row["transactionId"] == Get(txn, "transactionId") && row["customerName"] == Get(txn, "customerName")
      && row["product"] == Get(txn, "product") && row["amount"] == Get(txn, "amount")
      && row["points"] == Num(CalculatePoints(Get(txn, "amount")) as real)
      && row["date"] == Str(LocaleDateString(NewDate(parse, Get(txn, "date"))))
  {
  }
}
