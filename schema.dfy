/**
  The relational schema (lib/db/schema.ts): the `receipts` and `expenses`
  tables with their enumerations, defaults, not-null columns, fixed-point
  decimal columns and the foreign key from expenses to receipts, the
  one-to-many relation between them, and a store that inserts rows as
  PostgreSQL does for these declarations.

  Timestamps are time values in milliseconds, as JavaScript `Date`s carry
  them; `now` stands for the insertion time that `defaultNow()` reads.
*/
module Schema {
  import opened Wrappers
  import opened Numeric

  /** The `status` enumeration of receipts. */
  datatype Status = Pending | Processed | Failed

  function StatusText(s: Status): string {
    match s
    case Pending => "pending"
    case Processed => "processed"
    case Failed => "failed"
  }

  function ParseStatus(t: string): (r: Option<Status>)
    ensures r.Some? <==> t in ["pending", "processed", "failed"]
  {
    if t == "pending" then Some(Pending)
    else if t == "processed" then Some(Processed)
    else if t == "failed" then Some(Failed)
    else None
  }

  /** The stored text of a status reads back as that status, and only it does. */
  lemma StatusTextRoundTrip(s: Status, t: string)
    ensures ParseStatus(StatusText(s)) == Some(s)
    ensures ParseStatus(t) == Some(s) ==> StatusText(s) == t
  {}

  /** The `category` enumeration of expenses, in the schema's order. */
  datatype Category =
    | Food | Lifestyle | Subscriptions | Transportation | Shopping
    | Entertainment | Utilities | Healthcare | Other

  const CategoryTexts: seq<string> := [
    "food", "lifestyle", "subscriptions", "transportation", "shopping",
    "entertainment", "utilities", "healthcare", "other"
  ]

  function CategoryText(c: Category): (t: string)
    ensures t in CategoryTexts
  {
    match c
    case Food => "food"
    case Lifestyle => "lifestyle"
    case Subscriptions => "subscriptions"
    case Transportation => "transportation"
    case Shopping => "shopping"
    case Entertainment => "entertainment"
    case Utilities => "utilities"
    case Healthcare => "healthcare"
    case Other => "other"
  }

  function ParseCategory(t: string): (r: Option<Category>)
    ensures r.Some? <==> t in CategoryTexts
  {
    if t == "food" then Some(Food)
    else if t == "lifestyle" then Some(Lifestyle)
    else if t == "subscriptions" then Some(Subscriptions)
    else if t == "transportation" then Some(Transportation)
    else if t == "shopping" then Some(Shopping)
    else if t == "entertainment" then Some(Entertainment)
    else if t == "utilities" then Some(Utilities)
    else if t == "healthcare" then Some(Healthcare)
    else if t == "other" then Some(Other)
    else None
  }

  /** The stored text of a category reads back as that category, and only it does. */
  lemma CategoryTextRoundTrip(c: Category, t: string)
    ensures ParseCategory(CategoryText(c)) == Some(c)
    ensures ParseCategory(t) == Some(c) ==> CategoryText(c) == t
  {}

  type Timestamp = int

  const DefaultCurrency: string := "INR"

  /** `amount` is numeric(10, 2) and `confidence` numeric(5, 2). */
  const AmountPrecision: nat := 10
  const AmountScale: nat := 2
  const ConfidencePrecision: nat := 5
  const ConfidenceScale: nat := 2

  /** The range of an `integer` (4-byte) column such as `receipt_id`. */
  const MinInteger: int := -2147483648
  const MaxInteger: int := 2147483647

  /** The largest value a `serial` sequence hands out: the largest `integer`. */
  const MaxSerial: int := MaxInteger

  /** A row of `receipts`. */
  datatype Receipt = Receipt(
    id: int,
    imageUrl: Option<string>,
    uploadedAt: Timestamp,
    processedAt: Option<Timestamp>,
    status: Status)

  /** A row of `expenses`; `amount` and `confidence` are in hundredths. */
  datatype Expense = Expense(
    id: int,
    receiptId: int,
    merchantName: Option<string>,
    amount: int,
    currency: string,
    category: Category,
    date: Option<Timestamp>,
    description: Option<string>,
    confidence: Option<int>,
    createdAt: Timestamp)

  /**
    A value for a column that has a default: left out of the insert (the
    default applies), given as null, or given.
  */
  datatype Column<T> = Omitted | Null | Given(value: T)

  function WithDefault<T>(c: Column<T>, default: T): (r: Option<T>)
    ensures r.None? <==> c.Null?
  {
    match c
    case Omitted => Some(default)
    case Null => None
    case Given(v) => Some(v)
  }

  /** The values an insert into `receipts` supplies; `id` always comes from the sequence. */
  datatype NewReceipt = NewReceipt(
    imageUrl: Option<string>,
    uploadedAt: Column<Timestamp>,
    processedAt: Option<Timestamp>,
    status: Column<Status>)

  /** The values an insert into `expenses` supplies; `None` is null. */
  datatype NewExpense = NewExpense(
    receiptId: Option<int>,
    merchantName: Option<string>,
    amount: Option<Decimal>,
    currency: Column<string>,
    category: Option<Category>,
    date: Option<Timestamp>,
    description: Option<string>,
    confidence: Option<Decimal>,
    createdAt: Column<Timestamp>)

  datatype InsertError =
    | IntegerOutOfRange(column: string)
    | NotNullViolation(column: string)
    | NumericFieldOverflow(column: string)
    | ForeignKeyViolation
    | SerialExhausted

  /**
    The row an insert into `receipts` builds: defaults for the omitted
    columns, then the not-null checks in column order. A new receipt is
    `pending` and stamped with the insertion time unless given otherwise;
    an explicit null for either is refused, and the image URL and processing
    time are kept as given, null included.
  */
  function ReceiptRow(id: int, n: NewReceipt, now: Timestamp): (r: Result<Receipt, InsertError>)
    ensures r.Ok? <==> !n.uploadedAt.Null? && !n.status.Null?
    ensures n.uploadedAt.Null? ==> r == Err(NotNullViolation("uploaded_at"))
    ensures r.Ok? ==>
      && r.value.id == id
      && r.value.status == (if n.status.Given? then n.status.value else Pending)
      && r.value.uploadedAt == (if n.uploadedAt.Given? then n.uploadedAt.value else now)
      && r.value.imageUrl == n.imageUrl
      && r.value.processedAt == n.processedAt
  {
    var uploadedAt := WithDefault(n.uploadedAt, now);
    var status := WithDefault(n.status, Pending);
    if uploadedAt.None? then Err(NotNullViolation("uploaded_at"))
    else if status.None? then Err(NotNullViolation("status"))
    else Ok(Receipt(id, n.imageUrl, uploadedAt.value, n.processedAt, status.value))
  }

  /** A nullable numeric column: null stays null, a value is coerced. */
  function CoerceOptional(d: Option<Decimal>, precision: nat, scale: nat): (r: Result<Option<int>, NumericError>)
    ensures r.Ok? <==> d.None? || FitsPrecision(Rescale(d.value, scale), precision)
    ensures r.Ok? ==> (r.value.None? <==> d.None?)
    ensures r.Ok? && d.Some? ==> r.value.value == Rescale(d.value, scale)
  {
    if d.None? then Ok(None)
    else match Coerce(d.value, precision, scale)
      case Ok(u) => Ok(Some(u))
      case Err(e) => Err(e)
  }

  /**
    Converting the supplied values to the column types, in column order:
    `receipt_id` to `integer`, `amount` to numeric(10, 2) and `confidence`
    to numeric(5, 2). The first value that does not convert is reported.
  */
  function ConversionError(n: NewExpense): (e: Option<InsertError>)
    ensures e.None? <==>
      && (n.receiptId.Some? ==> MinInteger <= n.receiptId.value <= MaxInteger)
      && (n.amount.Some? ==> FitsPrecision(Rescale(n.amount.value, AmountScale), AmountPrecision))
      && (n.confidence.Some? ==> FitsPrecision(Rescale(n.confidence.value, ConfidenceScale), ConfidencePrecision))
    ensures n.receiptId.Some? && !(MinInteger <= n.receiptId.value <= MaxInteger) ==>
      e == Some(IntegerOutOfRange("receipt_id"))
  {
    if n.receiptId.Some? && !(MinInteger <= n.receiptId.value <= MaxInteger) then Some(IntegerOutOfRange("receipt_id"))
    else if CoerceOptional(n.amount, AmountPrecision, AmountScale).Err? then Some(NumericFieldOverflow("amount"))
    else if CoerceOptional(n.confidence, ConfidencePrecision, ConfidenceScale).Err? then Some(NumericFieldOverflow("confidence"))
    else None
  }

  /** Whether a row's decimal columns lie within numeric(10, 2) and numeric(5, 2). */
  predicate ExpenseFits(e: Expense) {
    FitsPrecision(e.amount, AmountPrecision)
    && (e.confidence.Some? ==> FitsPrecision(e.confidence.value, ConfidencePrecision))
  }

  /**
    The row an insert into `expenses` builds: the values are converted to
    their column types, defaults fill the omitted columns, then the not-null
    checks run in column order. The foreign key is checked against the table
    by the store.

    A row is built exactly when every value converts and none of
    `receipt_id`, `amount`, `currency`, `category` and `created_at` is null.
    Its amount is at most 99999999.99 and its confidence at most 999.99 in
    absolute value, each rounded to two fractional digits; `currency`
    defaults to INR and `created_at` to the insertion time.
  */
  function ExpenseRow(id: int, n: NewExpense, now: Timestamp): (r: Result<Expense, InsertError>)
    ensures r.Ok? <==>
      && ConversionError(n).None?
      && n.receiptId.Some? && n.amount.Some? && !n.currency.Null?
      && n.category.Some? && !n.createdAt.Null?
    ensures ConversionError(n).Some? ==> r == Err(ConversionError(n).value)
    ensures r.Ok? ==>
      && r.value.id == id
      && r.value.receiptId == n.receiptId.value
      && MinInteger <= r.value.receiptId <= MaxInteger
      && r.value.category == n.category.value
      && r.value.amount == Rescale(n.amount.value, AmountScale)
      && -9999999999 <= r.value.amount <= 9999999999
      && (n.confidence.None? <==> r.value.confidence.None?)
      && (n.confidence.Some? ==> r.value.confidence.value == Rescale(n.confidence.value, ConfidenceScale))
      && (r.value.confidence.Some? ==> -99999 <= r.value.confidence.value <= 99999)
      && r.value.currency == (if n.currency.Given? then n.currency.value else DefaultCurrency)
      && r.value.createdAt == (if n.createdAt.Given? then n.createdAt.value else now)
      && r.value.merchantName == n.merchantName
      && r.value.date == n.date
      && r.value.description == n.description
      && ExpenseFits(r.value)
  {
    Pow10Bounds();
    var amount := CoerceOptional(n.amount, AmountPrecision, AmountScale);
    var confidence := CoerceOptional(n.confidence, ConfidencePrecision, ConfidenceScale);
    var currency := WithDefault(n.currency, DefaultCurrency);
    var createdAt := WithDefault(n.createdAt, now);
    if ConversionError(n).Some? then Err(ConversionError(n).value)
    else if n.receiptId.None? then Err(NotNullViolation("receipt_id"))
    else if amount.value.None? then Err(NotNullViolation("amount"))
    else if currency.None? then Err(NotNullViolation("currency"))
    else if n.category.None? then Err(NotNullViolation("category"))
    else if createdAt.None? then Err(NotNullViolation("created_at"))
    else Ok(Expense(id, n.receiptId.value, n.merchantName, amount.value.value, currency.value,
                    n.category.value, n.date, n.description, confidence.value, createdAt.value))
  }

  /** An amount given with more than two fractional digits is stored within half a cent. */
  lemma AmountRounded(id: int, n: NewExpense, now: Timestamp)
    requires n.amount.Some? && n.amount.value.scale > AmountScale
    requires ExpenseRow(id, n, now).Ok?
    ensures var e := ExpenseRow(id, n, now).value;
      var p := Pow10(n.amount.value.scale - AmountScale);
      -p <= 2 * (e.amount * p - n.amount.value.unscaled) <= p
  {
    RescaleError(n.amount.value, AmountScale);
  }

  /** The ids of a table's rows. */
  function ReceiptIds(rs: seq<Receipt>): set<int> {
    set r | r in rs :: r.id
  }

  /** Every row of a table has a different id: the primary keys. */
  predicate UniqueReceiptIds(rs: seq<Receipt>) {
    forall i, j :: 0 <= i < j < |rs| ==> rs[i].id != rs[j].id
  }

  predicate UniqueExpenseIds(es: seq<Expense>) {
    forall i, j :: 0 <= i < j < |es| ==> es[i].id != es[j].id
  }

  /** Every expense names an existing receipt: the foreign key. */
  predicate ReferencesExist(rs: seq<Receipt>, es: seq<Expense>) {
    forall e :: e in es ==> e.receiptId in ReceiptIds(rs)
  }

  /** The constraints the schema declares, over the contents of both tables. */
  predicate WellFormed(rs: seq<Receipt>, es: seq<Expense>) {
    && UniqueReceiptIds(rs)
    && UniqueExpenseIds(es)
    && ReferencesExist(rs, es)
    && (forall e :: e in es ==> ExpenseFits(e))
  }

  /**
    `receiptsRelations`: the expenses of receipt `id`, listed in the order
    the model keeps the table's rows.
  */
  function ExpensesOf(es: seq<Expense>, id: int): (r: seq<Expense>)
    ensures |r| <= |es|
    ensures forall i :: 0 <= i < |r| ==> r[i] in es && r[i].receiptId == id
  {
    if es == [] then []
    else (if es[0].receiptId == id then [es[0]] else []) + ExpensesOf(es[1..], id)
  }

  /** The expenses of a receipt are exactly the table's rows that reference it. */
  lemma {:induction false} ExpensesOfMembers(es: seq<Expense>, id: int, e: Expense)
    ensures e in ExpensesOf(es, id) <==> e in es && e.receiptId == id
  {
    if es != [] {
      ExpensesOfMembers(es[1..], id, e);
      assert es == [es[0]] + es[1..];
    }
  }

  /** `expensesRelations`: the receipt an expense references, if there is one. */
  function ReceiptOf(rs: seq<Receipt>, e: Expense): (r: Option<Receipt>)
    ensures r.Some? ==> r.value in rs && r.value.id == e.receiptId
    ensures r.None? <==> e.receiptId !in ReceiptIds(rs)
  {
    if rs == [] then None
    else if rs[0].id == e.receiptId then Some(rs[0])
    else ReceiptOf(rs[1..], e)
  }

  /** How many rows of `receipts` have the given id. */
  function ReceiptsWithId(rs: seq<Receipt>, id: int): nat {
    if rs == [] then 0
    else (if rs[0].id == id then 1 else 0) + ReceiptsWithId(rs[1..], id)
  }

  /** With unique ids, an existing id belongs to exactly one receipt. */
  lemma {:induction false} ExactlyOneReceipt(rs: seq<Receipt>, id: int)
    requires UniqueReceiptIds(rs)
    ensures ReceiptsWithId(rs, id) == (if id in ReceiptIds(rs) then 1 else 0)
  {
    if rs != [] {
      ExactlyOneReceipt(rs[1..], id);
      assert ReceiptIds(rs) == {rs[0].id} + ReceiptIds(rs[1..]);
      if rs[0].id == id {
        assert id !in ReceiptIds(rs[1..]);
      }
    }
  }

  /**
    In a well-formed store each expense relates to exactly one receipt, and
    `expensesRelations` finds it.
  */
  lemma EachExpenseHasOneReceipt(rs: seq<Receipt>, es: seq<Expense>, e: Expense)
    requires WellFormed(rs, es)
    requires e in es
    ensures ReceiptsWithId(rs, e.receiptId) == 1
    ensures ReceiptOf(rs, e).Some? && ReceiptOf(rs, e).value.id == e.receiptId
  {
    ExactlyOneReceipt(rs, e.receiptId);
  }

  /** The expenses of each receipt of `rs` in turn, as `receiptsRelations` lists them. */
  function Grouped(rs: seq<Receipt>, es: seq<Expense>): seq<Expense> {
    if rs == [] then [] else ExpensesOf(es, rs[0].id) + Grouped(rs[1..], es)
  }

  /** Prepending an expense adds it once to the grouping when its receipt is listed, and not at all otherwise. */
  lemma {:induction false} GroupedCons(rs: seq<Receipt>, e: Expense, es: seq<Expense>)
    requires UniqueReceiptIds(rs)
    ensures multiset(Grouped(rs, [e] + es))
      == multiset(Grouped(rs, es)) + (if e.receiptId in ReceiptIds(rs) then multiset{e} else multiset{})
  {
    if rs != [] {
      GroupedCons(rs[1..], e, es);
      assert ([e] + es)[1..] == es;
      assert ReceiptIds(rs) == {rs[0].id} + ReceiptIds(rs[1..]);
      if rs[0].id == e.receiptId {
        assert e.receiptId !in ReceiptIds(rs[1..]);
      }
    }
  }

  lemma {:induction false} GroupedEmpty(rs: seq<Receipt>)
    ensures Grouped(rs, []) == []
  {
    if rs != [] {
      GroupedEmpty(rs[1..]);
    }
  }

  /**
    The one-to-many relation partitions the expenses: the expenses of all
    receipts together are exactly the rows of `expenses`, each listed once.
  */
  lemma {:induction false} RelationPartitionsExpenses(rs: seq<Receipt>, es: seq<Expense>)
    requires UniqueReceiptIds(rs) && ReferencesExist(rs, es)
    ensures multiset(Grouped(rs, es)) == multiset(es)
    ensures |Grouped(rs, es)| == |es|
  {
    if es == [] {
      GroupedEmpty(rs);
    } else {
      assert es == [es[0]] + es[1..];
      RelationPartitionsExpenses(rs, es[1..]);
      GroupedCons(rs, es[0], es[1..]);
    }
    assert |multiset(Grouped(rs, es))| == |Grouped(rs, es)|;
  }

  /**
    The two tables and the two `serial` sequences. A sequence holds the last
    id it handed out (0 before the first). An insert takes the next value
    once its values have converted to the column types, and keeps it even
    when a not-null check or the foreign key then refuses the row.
  */
  class Store {
    var receipts: seq<Receipt>
    var expenses: seq<Expense>
    var receiptSeq: int
    var expenseSeq: int

    ghost predicate Valid()
      reads this
    {
      && WellFormed(receipts, expenses)
      && 0 <= receiptSeq <= MaxSerial
      && 0 <= expenseSeq <= MaxSerial
      && (forall r :: r in receipts ==> 1 <= r.id <= receiptSeq)
      && (forall e :: e in expenses ==> 1 <= e.id <= expenseSeq)
    }

    constructor ()
      ensures Valid()
      ensures receipts == [] && expenses == []
      ensures receiptSeq == 0 && expenseSeq == 0
    {
      receipts := [];
      expenses := [];
      receiptSeq := 0;
      expenseSeq := 0;
    }

    /**
      `insert into receipts`: takes the next id, applies the defaults and
      stores the row unless a not-null check refuses it.
    */
    method InsertReceipt(n: NewReceipt, now: Timestamp) returns (r: Result<Receipt, InsertError>)
      requires Valid()
      modifies this
      ensures Valid()
      ensures old(receiptSeq) == MaxSerial ==> r == Err(SerialExhausted) && receiptSeq == old(receiptSeq)
      ensures old(receiptSeq) < MaxSerial ==>
        receiptSeq == old(receiptSeq) + 1 && r == ReceiptRow(receiptSeq, n, now)
      ensures receipts == if r.Ok? then old(receipts) + [r.value] else old(receipts)
      ensures r.Ok? ==> r.value.id !in ReceiptIds(old(receipts))
      ensures expenses == old(expenses) && expenseSeq == old(expenseSeq)
    {
      if receiptSeq == MaxSerial {
        return Err(SerialExhausted);
      }
      receiptSeq := receiptSeq + 1;
      r := ReceiptRow(receiptSeq, n, now);
      if r.Ok? {
        receipts := receipts + [r.value];
      }
    }

    /**
      `insert into expenses`: converts the values, takes the next id, builds
      the row, then checks the foreign key against the receipts stored.
    */
    method InsertExpense(n: NewExpense, now: Timestamp) returns (r: Result<Expense, InsertError>)
      requires Valid()
      modifies this
      ensures Valid()
      ensures ConversionError(n).Some? ==>
        r == Err(ConversionError(n).value) && expenseSeq == old(expenseSeq)
      ensures ConversionError(n).None? && old(expenseSeq) == MaxSerial ==>
        r == Err(SerialExhausted) && expenseSeq == old(expenseSeq)
      ensures ConversionError(n).None? && old(expenseSeq) < MaxSerial ==>
        && expenseSeq == old(expenseSeq) + 1
        && r == (match ExpenseRow(expenseSeq, n, now)
                 case Err(e) => Err(e)
                 case Ok(row) => if row.receiptId in ReceiptIds(receipts) then Ok(row) else Err(ForeignKeyViolation))
      ensures expenses == if r.Ok? then old(expenses) + [r.value] else old(expenses)
      ensures r.Ok? ==> r.value.id !in set e | e in old(expenses) :: e.id
      ensures r.Ok? ==> forall id ::
        ExpensesOf(expenses, id) == ExpensesOf(old(expenses), id) + (if id == r.value.receiptId then [r.value] else [])
      ensures receipts == old(receipts) && receiptSeq == old(receiptSeq)
    {
      if ConversionError(n).Some? {
        return Err(ConversionError(n).value);
      }
      if expenseSeq == MaxSerial {
        return Err(SerialExhausted);
      }
      expenseSeq := expenseSeq + 1;
      var row := ExpenseRow(expenseSeq, n, now);
      if row.Err? {
        return Err(row.error);
      }
      if row.value.receiptId !in ReceiptIds(receipts) {
        return Err(ForeignKeyViolation);
      }
      ExpenseAppendWellFormed(receipts, expenses, row.value);
      forall id {
        ExpensesOfAppend(expenses, row.value, id);
      }
      expenses := expenses + [row.value];
      r := Ok(row.value);
    }
  }

  /**
    Appending an expense whose receipt exists, whose decimals fit and whose
    id is above every stored one keeps the constraints.
  */
  lemma ExpenseAppendWellFormed(rs: seq<Receipt>, es: seq<Expense>, e: Expense)
    requires WellFormed(rs, es)
    requires e.receiptId in ReceiptIds(rs) && ExpenseFits(e)
    requires forall x :: x in es ==> x.id < e.id
    ensures WellFormed(rs, es + [e])
  {
    var es' := es + [e];
    forall i, j | 0 <= i < j < |es'|
      ensures es'[i].id != es'[j].id
    {
      if j == |es| {
        assert es'[i] in es;
      }
    }
  }

  /**
    Appending an expense adds it at the end of its own receipt's expenses
    and leaves every other receipt's expenses as they were.
  */
  lemma {:induction false} ExpensesOfAppend(es: seq<Expense>, e: Expense, id: int)
    ensures ExpensesOf(es + [e], id) == ExpensesOf(es, id) + (if id == e.receiptId then [e] else [])
  {
    if es != [] {
      var head := if es[0].receiptId == id then [es[0]] else [];
      var tail := if id == e.receiptId then [e] else [];
      assert (es + [e])[0] == es[0];
      assert (es + [e])[1..] == es[1..] + [e];
      assert ExpensesOf(es + [e], id) == head + ExpensesOf(es[1..] + [e], id);
      ExpensesOfAppend(es[1..], e, id);
      assert ExpensesOf(es, id) == head + ExpensesOf(es[1..], id);
      assert head + (ExpensesOf(es[1..], id) + tail) == (head + ExpensesOf(es[1..], id)) + tail;
    } else {
      assert ExpensesOf([e], id) == (if id == e.receiptId then [e] else []) + ExpensesOf([], id);
    }
  }
}
