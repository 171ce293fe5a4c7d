/**
 * Payments received and payments made to teachers: the payment-method enum
 * and its labels, value validation, `__str__`, ownership and ordering.
 */
module Financial {
  import opened Wrappers
  import opened Text
  import opened Ordering
  import opened Common
  import opened Money

  /** `PaymentMethod` choices. */
  datatype PaymentMethod = CreditCard | Pix | Boleto

  /** The stored value of each choice. */
  function MethodValue(m: PaymentMethod): string {
    match m
    case CreditCard => "credit_card"
    case Pix => "pix"
    case Boleto => "boleto"
  }

  /** `get_payment_method_display()`: the label of each choice. */
  function MethodLabel(m: PaymentMethod): string {
    match m
    case CreditCard => "Credit Card"
    case Pix => "PIX"
    case Boleto => "Boleto"
  }

  /** The choices check on a stored value: only the three declared values are accepted. */
  function ParseMethod(v: string): Option<PaymentMethod> {
    if v == "credit_card" then Some(CreditCard)
    else if v == "pix" then Some(Pix)
    else if v == "boleto" then Some(Boleto)
    else None
  }

  /** Each method's stored value reads back as that method and fits the column (max_length=20). */
  lemma MethodValueRoundTrip(m: PaymentMethod)
    ensures ParseMethod(MethodValue(m)) == Some(m)
    ensures |MethodValue(m)| <= 20
  {
  }

  /** Only the three declared values are valid choices. */
  lemma MethodChoicesExact(v: string)
    ensures ParseMethod(v).Some? <==> v == "credit_card" || v == "pix" || v == "boleto"
    ensures ParseMethod(v).Some? ==> MethodValue(ParseMethod(v).value) == v
  {
  }

  datatype Payment = Payment(paymentMethod: PaymentMethod, value: Cents, paidAt: Instant, description: Option<string>)

  /** A payment to one teacher; the teacher is a foreign key (cascade on delete). */
  datatype TeacherPayment = TeacherPayment(
    teacher: Id,
    value: Cents,
    paidAt: Instant,
    paymentMethod: PaymentMethod,
    description: Option<string>)

  datatype PaymentError = ValueBelowMinimum | ValueDigits(error: DecimalError) | DescriptionTooLong

  const DescriptionMaxLength: nat := 255

  /** The value field's validators as declared: MinValueValidator(0.01) with its float limit, then DecimalValidator. */
  function ValueErrorsAsWritten(v: Cents): seq<PaymentError> {
    (if BelowFloatLimit(v) then [ValueBelowMinimum] else [])
    + (match DecimalCheck(v, MaxDigits, DecimalPlaces) case Some(e) => [ValueDigits(e)] case None => [])
  }

  /** The value field's validators with the minimum compared in decimal: value >= 0.01. */
  function ValueErrors(v: Cents): seq<PaymentError> {
    (if !MeetsMinimum(v) then [ValueBelowMinimum] else [])
    + (match DecimalCheck(v, MaxDigits, DecimalPlaces) case Some(e) => [ValueDigits(e)] case None => [])
  }

  /** A value passes exactly when it is at least 0.01 and below 10^8. */
  lemma ValueValidIff(v: Cents)
    ensures ValueErrors(v) == [] <==> 1 <= v < Pow10(10)
  {
    MoneyFieldBounds(v);
  }

  /** As written, the validators refuse 0.01 (and so accept only from 0.02); with a decimal limit 0.01 passes. */
  lemma ValueAsWrittenRejectsOneCent()
    ensures ValueErrorsAsWritten(1) == [ValueBelowMinimum]
    ensures ValueErrors(1) == []
    ensures forall v: Cents :: ValueErrorsAsWritten(v) == [] <==> 2 <= v < Pow10(10)
  {
    OneCentBelowFloatLimit();
    MoneyFieldBounds(1);
    forall v: Cents ensures ValueErrorsAsWritten(v) == [] <==> 2 <= v < Pow10(10) {
      FloatLimitAcceptsFromTwoCents(v);
      MoneyFieldBounds(v);
    }
  }

  function DescriptionErrors(d: Option<string>): seq<PaymentError> {
    if d.Some? && |d.value| > DescriptionMaxLength then [DescriptionTooLong] else []
  }

  /** `full_clean()` of a Payment, in field order, with the minimum compared in decimal (the method is valid by its type). */
  function PaymentErrors(p: Payment): seq<PaymentError> {
    ValueErrors(p.value) + DescriptionErrors(p.description)
  }

  /** `full_clean()` of a TeacherPayments row, in field order, with the minimum compared in decimal. */
  function TeacherPaymentErrors(p: TeacherPayment): seq<PaymentError> {
    ValueErrors(p.value) + DescriptionErrors(p.description)
  }

  /** `full_clean()` of a Payment as written, with the float minimum. */
  function PaymentErrorsAsWritten(p: Payment): seq<PaymentError> {
    ValueErrorsAsWritten(p.value) + DescriptionErrors(p.description)
  }

  /** `full_clean()` of a TeacherPayments row as written, with the float minimum. */
  function TeacherPaymentErrorsAsWritten(p: TeacherPayment): seq<PaymentError> {
    ValueErrorsAsWritten(p.value) + DescriptionErrors(p.description)
  }

  /**
   * As written, a payment or a teacher payment is valid exactly when
   * 0.02 <= value < 10^8 and the description fits 255 characters: one cent is refused.
   */
  lemma PaymentAsWrittenValidIff(p: Payment, q: TeacherPayment)
    ensures PaymentErrorsAsWritten(p) == [] <==>
      2 <= p.value < Pow10(10) && (p.description.Some? ==> |p.description.value| <= DescriptionMaxLength)
    ensures TeacherPaymentErrorsAsWritten(q) == [] <==>
      2 <= q.value < Pow10(10) && (q.description.Some? ==> |q.description.value| <= DescriptionMaxLength)
  {
    ValueAsWrittenRejectsOneCent();
  }

  /** A payment is valid exactly when 0.01 <= value < 10^8 and the description fits 255 characters. */
  lemma PaymentValidIff(p: Payment)
    ensures PaymentErrors(p) == [] <==>
      1 <= p.value < Pow10(10) && (p.description.Some? ==> |p.description.value| <= DescriptionMaxLength)
  {
    ValueValidIff(p.value);
  }

  /** A teacher payment obeys the same bounds. */
  lemma TeacherPaymentValidIff(p: TeacherPayment)
    ensures TeacherPaymentErrors(p) == [] <==>
      1 <= p.value < Pow10(10) && (p.description.Some? ==> |p.description.value| <= DescriptionMaxLength)
  {
    ValueValidIff(p.value);
  }

  // ---------------------------------------------------------------------
  // __str__
  // ---------------------------------------------------------------------

  const PaymentPrefix: string := "Payment of "
  const TeacherPaymentPrefix: string := "Payment to "

  /** `str(Payment)`: "Payment of {value} via {label}". */
  function PaymentStr(p: Payment): string {
    PaymentPrefix + FormatMoney(p.value) + " via " + MethodLabel(p.paymentMethod)
  }

  /** `str(TeacherPayments)`: "Payment to {teacher name}: {value} via {label}". */
  function TeacherPaymentStr(teacherName: string, p: TeacherPayment): string {
    TeacherPaymentPrefix + teacherName + ": " + FormatMoney(p.value) + " via " + MethodLabel(p.paymentMethod)
  }

  /** Which method's label a string ends with, after " via ". */
  function LabelSuffix(t: string): Option<PaymentMethod> {
    if EndsWith(t, " via " + MethodLabel(CreditCard)) then Some(CreditCard)
    else if EndsWith(t, " via " + MethodLabel(Pix)) then Some(Pix)
    else if EndsWith(t, " via " + MethodLabel(Boleto)) then Some(Boleto)
    else None
  }

  lemma LabelSuffixOf(x: string, m: PaymentMethod)
    ensures LabelSuffix(x + " via " + MethodLabel(m)) == Some(m)
  {
    var t := x + " via " + MethodLabel(m);
    var suffix := " via " + MethodLabel(m);
    assert t[|t| - |suffix|..] == suffix;
    assert t[|t| - 1] == suffix[|suffix| - 1];
    match m {
      case CreditCard =>
      case Pix =>
        assert t[|t| - 1] == 'X';
      case Boleto =>
        assert t[|t| - 1] == 'o';
        assert !EndsWith(t, " via " + MethodLabel(Pix));
    }
  }

  /** What follows a known prefix: "{money} via {label}". */
  function ParseMoneyAndLabel(rest: string): Option<(string, PaymentMethod)> {
    match LabelSuffix(rest)
    case None => None
    case Some(m) =>
      var cut := |" via " + MethodLabel(m)|;
      if |rest| < cut then None else Some((rest[..|rest| - cut], m))
  }

  lemma MoneyAndLabelOf(x: string, m: PaymentMethod)
    ensures ParseMoneyAndLabel(x + " via " + MethodLabel(m)) == Some((x, m))
  {
    var t := x + " via " + MethodLabel(m);
    LabelSuffixOf(x, m);
    assert t[..|t| - |" via " + MethodLabel(m)|] == x;
  }

  /** Reads value and method back from a payment's string. */
  function ParsePaymentStr(s: string): Option<(Cents, PaymentMethod)> {
    if !StartsWith(s, PaymentPrefix) then None
    else match ParseMoneyAndLabel(s[|PaymentPrefix|..])
      case None => None
      case Some((money, m)) =>
        match ParseMoney(money)
        case None => None
        case Some(v) => Some((v, m))
  }

  lemma AfterPrefix(prefix: string, t: string)
    ensures StartsWith(prefix + t, prefix) && (prefix + t)[|prefix|..] == t
  {
    assert (prefix + t)[..|prefix|] == prefix;
  }

  /** A payment's string determines its value and its method. */
  lemma PaymentStrRoundTrip(p: Payment)
    ensures ParsePaymentStr(PaymentStr(p)) == Some((p.value, p.paymentMethod))
  {
    var money := FormatMoney(p.value);
    var t := money + " via " + MethodLabel(p.paymentMethod);
    assert PaymentStr(p) == PaymentPrefix + t;
    AfterPrefix(PaymentPrefix, t);
    MoneyAndLabelOf(money, p.paymentMethod);
    MoneyRoundTrip(p.value);
  }

  function NotSpace(c: char): bool {
    c != ' '
  }

  /** Splits "{name}: {money}" at the last space: the money text has no space. */
  function SplitNameAndMoney(body: string): Option<(string, string)> {
    var money := TrailingRun(body, NotSpace);
    var head := body[..|body| - |money|];
    if EndsWith(head, ": ") then Some((head[..|head| - 2], money)) else None
  }

  lemma NameAndMoneyOf(name: string, money: string)
    requires forall i | 0 <= i < |money| :: IsMoneyChar(money[i])
    ensures SplitNameAndMoney(name + ": " + money) == Some((name, money))
  {
    var body := name + ": " + money;
    assert body == (name + ":") + [' '] + money;
    TrailingRunAfterStop(name + ":", ' ', money, NotSpace);
    var head := name + ": ";
    assert body[..|body| - |money|] == head;
    assert head[|head| - 2..] == ": ";
    assert head[..|head| - 2] == name;
  }

  /** Reads teacher name, value and method back from a teacher payment's string. */
  function ParseTeacherPaymentStr(s: string): Option<(string, Cents, PaymentMethod)> {
    if !StartsWith(s, TeacherPaymentPrefix) then None
    else match ParseMoneyAndLabel(s[|TeacherPaymentPrefix|..])
      case None => None
      case Some((body, m)) =>
        match SplitNameAndMoney(body)
        case None => None
        case Some((name, money)) =>
          match ParseMoney(money)
          case None => None
          case Some(v) => Some((name, v, m))
  }

  /** A teacher payment's string determines the teacher's name, the value and the method, whatever the name. */
  lemma TeacherPaymentStrRoundTrip(teacherName: string, p: TeacherPayment)
    ensures ParseTeacherPaymentStr(TeacherPaymentStr(teacherName, p)) == Some((teacherName, p.value, p.paymentMethod))
  {
    var money := FormatMoney(p.value);
    var body := teacherName + ": " + money;
    var t := body + " via " + MethodLabel(p.paymentMethod);
    assert TeacherPaymentStr(teacherName, p) == TeacherPaymentPrefix + t;
    AfterPrefix(TeacherPaymentPrefix, t);
    MoneyAndLabelOf(body, p.paymentMethod);
    assert ParseMoneyAndLabel(t) == Some((body, p.paymentMethod));
    FormattedMoneyChars(p.value);
    NameAndMoneyOf(teacherName, money);
    assert SplitNameAndMoney(body) == Some((teacherName, money));
    MoneyRoundTrip(p.value);
    assert ParseMoney(money) == Some(p.value);
  }

  // ---------------------------------------------------------------------
  // Ownership and ordering
  // ---------------------------------------------------------------------

  /** `teacher.payments.all()`: the live teacher payments whose teacher is t. */
  function PaymentsOf(rows: Rows<TeacherPayment>, t: Id): (ids: set<Id>)
    ensures forall id :: id in ids <==> id in DefaultView(rows) && rows[id].data.teacher == t
  {
    set id | id in rows && !rows[id].IsDeleted() && rows[id].data.teacher == t
  }

  /** A live teacher payment is listed under its own teacher and under no other teacher. */
  lemma PaymentBelongsToOneTeacher(rows: Rows<TeacherPayment>, id: Id, t: Id)
    requires id in DefaultView(rows)
    ensures id in PaymentsOf(rows, t) <==> t == rows[id].data.teacher
  {
  }

  function PaymentPaidAt(r: Row<Payment>): int {
    r.rec.data.paidAt
  }

  function TeacherPaymentPaidAt(r: Row<TeacherPayment>): int {
    r.rec.data.paidAt
  }

  /** `ordering = ["-paid_at"]` for Payment. */
  function PaymentOrder(): (Row<Payment>, Row<Payment>) -> bool {
    ByNumberDesc(PaymentPaidAt)
  }

  /** `ordering = ["-paid_at"]` for TeacherPayments. */
  function TeacherPaymentOrder(): (Row<TeacherPayment>, Row<TeacherPayment>) -> bool {
    ByNumberDesc(TeacherPaymentPaidAt)
  }

  /** The payment listing holds exactly the rows of the view, latest paid first. */
  lemma PaymentListing(view: Rows<Payment>, bound: nat)
    requires forall id | id in view :: id < bound
    ensures var s := Listing(view, bound, PaymentOrder());
      && (forall i, j | 0 <= i < j < |s| :: s[i].rec.data.paidAt >= s[j].rec.data.paidAt)
      && (forall r :: r in s <==> r.id in view && view[r.id] == r.rec)
  {
    ByNumberIsTotalPreorder(PaymentPaidAt);
    ListingSpec(view, bound, PaymentOrder());
    var s := Listing(view, bound, PaymentOrder());
    forall i, j | 0 <= i < j < |s| ensures s[i].rec.data.paidAt >= s[j].rec.data.paidAt {
      assert PaymentOrder()(s[i], s[j]);
      assert ByNumberDesc(PaymentPaidAt)(s[i], s[j]) == (PaymentPaidAt(s[i]) >= PaymentPaidAt(s[j]));
    }
  }

  /** The teacher-payment listing holds exactly the rows of the view, latest paid first. */
  lemma TeacherPaymentListing(view: Rows<TeacherPayment>, bound: nat)
    requires forall id | id in view :: id < bound
    ensures var s := Listing(view, bound, TeacherPaymentOrder());
      && (forall i, j | 0 <= i < j < |s| :: s[i].rec.data.paidAt >= s[j].rec.data.paidAt)
      && (forall r :: r in s <==> r.id in view && view[r.id] == r.rec)
  {
    ByNumberIsTotalPreorder(TeacherPaymentPaidAt);
    ListingSpec(view, bound, TeacherPaymentOrder());
    var s := Listing(view, bound, TeacherPaymentOrder());
    forall i, j | 0 <= i < j < |s| ensures s[i].rec.data.paidAt >= s[j].rec.data.paidAt {
      assert TeacherPaymentOrder()(s[i], s[j]);
      assert ByNumberDesc(TeacherPaymentPaidAt)(s[i], s[j])
          == (TeacherPaymentPaidAt(s[i]) >= TeacherPaymentPaidAt(s[j]));
    }
  }
}
