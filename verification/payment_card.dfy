/** The status derivation of the payment card: a day count from the due time,
    the four-way status label, the overdue notice and the pay / completed footer. */
module PaymentCard {
  import opened Wrappers
  import Decimal

  /** 1000 * 60 * 60 * 24 milliseconds. */
  const MsPerDay: int := 86_400_000

  /** The last day count, inclusive, that is still "due soon". */
  const DueSoonDays: int := 7

  datatype PaymentPlan = PaymentPlan(
    id: string,
    name: string,
    amount: int,
    currency: string,
    term: string,
    dueMs: int,          // the due date, already read as epoch milliseconds
    description: string
  )

  datatype Status = Paid | Overdue | DueSoon | Pending

  /** `Math.ceil(a / d)` for a positive divisor, in exact integer arithmetic:
      the least integer `q` with `a <= d * q`. */
  function CeilDiv(a: int, d: int): (q: int)
    requires d > 0
    ensures d * (q - 1) < a <= d * q
  {
    if a % d == 0 then a / d else a / d + 1
  }

  /** The ceiling characterisation pins the quotient down: no other integer meets it. */
  lemma CeilDivUnique(a: int, q: int)
    requires MsPerDay * (q - 1) < a <= MsPerDay * q
    ensures q == CeilDiv(a, MsPerDay)
  {
  }

  /** Whole days from now until the due time, rounded up. */
  function DaysUntilDue(nowMs: int, dueMs: int): (days: int)
    ensures MsPerDay * (days - 1) < dueMs - nowMs <= MsPerDay * days
  {
    CeilDiv(dueMs - nowMs, MsPerDay)
  }

  predicate IsOverdue(days: int) {
    days < 0
  }

  predicate IsDueSoon(days: int) {
    days <= DueSoonDays && days >= 0
  }

  /** The badge status, by priority Paid > Overdue > Due Soon > Pending. */
  function StatusOf(isPaid: bool, days: int): (s: Status)
    ensures s.Paid? <==> isPaid
    ensures s.Overdue? <==> !isPaid && days < 0
    ensures s.DueSoon? <==> !isPaid && 0 <= days <= DueSoonDays
    ensures s.Pending? <==> !isPaid && days > DueSoonDays
  {
    if isPaid then Paid
    else if IsOverdue(days) then Overdue
    else if IsDueSoon(days) then DueSoon
    else Pending
  }

  /** The badge text of each status. */
  function Label(s: Status): (text: string)
    ensures text == "Paid" <==> s.Paid?
    ensures text == "Overdue" <==> s.Overdue?
    ensures text == "Due Soon" <==> s.DueSoon?
    ensures text == "Pending" <==> s.Pending?
  {
    match s
    case Paid => "Paid"
    case Overdue => "Overdue"
    case DueSoon => "Due Soon"
    case Pending => "Pending"
  }

  /** What the card shows besides the plan's static fields. */
  datatype CardView = CardView(
    badge: string,
    overdueDays: Option<nat>,        // the N of the overdue notice, when shown
    overdueNotice: Option<string>,   // the notice's text, "N days overdue"
    payAction: Option<PaymentPlan>,  // the "Pay with M-PESA" button and the plan it hands to onPayNow
    completedBanner: bool            // the "Payment Completed" banner
  )

  /** The overdue notice: the count in decimal followed by " days overdue". */
  function NoticeText(n: nat): (text: string)
    ensures |text| > 13 && text[|text| - 13..] == " days overdue"
    ensures Decimal.Canonical(text[..|text| - 13]) && Decimal.ParseDigits(text[..|text| - 13]) == n
  {
    var digits := Decimal.Digits(n);
    Decimal.ParseDigitsOfDigits(n);
    assert (digits + " days overdue")[..|digits|] == digits;
    digits + " days overdue"
  }

  function Render(plan: PaymentPlan, isPaid: bool, nowMs: int): (v: CardView)
    ensures v.badge == Label(StatusOf(isPaid, DaysUntilDue(nowMs, plan.dueMs)))
    ensures v.overdueDays.Some? <==> !isPaid && plan.dueMs - nowMs <= -MsPerDay
    ensures v.overdueDays.Some? ==>
              v.overdueDays.value >= 1 && v.overdueDays.value == (nowMs - plan.dueMs) / MsPerDay
    ensures v.overdueNotice == (if v.overdueDays.Some? then Some(NoticeText(v.overdueDays.value)) else None)
    ensures v.payAction == (if isPaid then None else Some(plan))
    ensures v.completedBanner <==> isPaid
  {
    var days := DaysUntilDue(nowMs, plan.dueMs);
    var overdue := IsOverdue(days);
    CardView(
      Label(StatusOf(isPaid, days)),
      if !isPaid && overdue then Some(-days) else None,
      if !isPaid && overdue then Some(NoticeText(-days)) else None,
      if !isPaid then Some(plan) else None,
      isPaid)
  }

  /** Exactly one of the four labels is produced, and distinct statuses have distinct labels. */
  lemma LabelsDistinct(s: Status, t: Status)
    ensures Label(s) == Label(t) <==> s == t
  {
  }

  /** The overdue and due-soon flags are never both set. */
  lemma OverdueExcludesDueSoon(days: int)
    ensures !(IsOverdue(days) && IsDueSoon(days))
  {
  }

  /** Overdue holds exactly when the due time is at least one full day in the past. */
  lemma OverdueIffFullDayPast(nowMs: int, dueMs: int)
    ensures IsOverdue(DaysUntilDue(nowMs, dueMs)) <==> dueMs - nowMs <= -MsPerDay
  {
  }

  /** A due time less than one full day in the past counts as day 0 and is "Due Soon". */
  lemma LessThanADayPastIsDueSoon(nowMs: int, dueMs: int)
    requires -MsPerDay < dueMs - nowMs <= 0
    ensures DaysUntilDue(nowMs, dueMs) == 0
    ensures StatusOf(false, DaysUntilDue(nowMs, dueMs)) == DueSoon
  {
  }

  /** The unpaid status in terms of the raw millisecond difference. */
  lemma UnpaidStatusByDifference(nowMs: int, dueMs: int)
    ensures var s := StatusOf(false, DaysUntilDue(nowMs, dueMs));
            && (s == Overdue <==> dueMs - nowMs <= -MsPerDay)
            && (s == DueSoon <==> -MsPerDay < dueMs - nowMs <= DueSoonDays * MsPerDay)
            && (s == Pending <==> DueSoonDays * MsPerDay < dueMs - nowMs)
  {
  }

  /** A plan due 2024-01-01T00:00Z seen on 2024-01-10 at 10:00Z is overdue by 9 days. */
  lemma NineDaysOverdueExample()
    ensures var plan := PaymentPlan("p1", "Term 1 Fees", 5000, "KES", "Term 1", 1704067200000, "Tuition");
            var v := Render(plan, false, 1704880800000);
            v.badge == "Overdue" && v.overdueDays == Some(9) && v.payAction == Some(plan)
  {
  }
}
