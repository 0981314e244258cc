/**
  The reminder email: recipient address derived from the Patient ID, fixed
  From and Subject headers, and a plain-text body that greets the patient by name.
 */
module Messages {
  import opened Wrappers

  /** FROM_EMAIL, which is USERNAME. */
  const FromEmail: string := "medcare.reminders@gmail.com"
  /** SUBJECT. */
  const Subject: string := "Reminder: Your Health Check-up is Due"
  /** Appended to the Patient ID to form the placeholder address. */
  const AddressSuffix: string := "@example.com"
  /** The body is Greeting + name + Closing. */
  const Greeting: string := "Dear "
  const Closing: string := ",\n\nThis is a reminder that your regular health check-up is due. Please schedule your appointment at the earliest convenience.\n\nBest regards,\nMedCare"

  /**
    A "Patient ID" cell: pandas reads a column of whole numbers without blanks
    as integers and a column with any non-numeric cell as text. A column with
    fractional numbers or blank cells is read as floats, which is not modelled.
   */
  datatype PatientId = NumericId(n: int) | TextId(text: string)

  /** The message handed to the mail relay. */
  datatype Email = Email(from: string, to: string, subject: string, body: string)

  predicate IsDigit(c: char) {
    '0' <= c <= '9'
  }

  /** Decimal digits of n, most significant first, without leading zeros. */
  function Digits(n: nat): (s: string)
    ensures |s| >= 1
    ensures forall i :: 0 <= i < |s| ==> IsDigit(s[i])
    ensures |s| > 1 ==> s[0] != '0'
    decreases n
  {
    var last := [('0' as int + n % 10) as char];
    if n < 10 then last else Digits(n / 10) + last
  }

  /** The value of a string of decimal digits. */
  function DigitsValue(s: string): nat
    requires forall i :: 0 <= i < |s| ==> IsDigit(s[i])
  {
    if |s| == 0 then 0
    else
      assert IsDigit(s[|s| - 1]);
      DigitsValue(s[..|s| - 1]) * 10 + (s[|s| - 1] as int - '0' as int)
  }

  lemma {:induction false} DigitsRoundTrip(n: nat)
    ensures DigitsValue(Digits(n)) == n
    decreases n
  {
    var s := Digits(n);
    if n >= 10 {
      DigitsRoundTrip(n / 10);
      assert s[..|s| - 1] == Digits(n / 10);
    }
  }

  /** Python's `str()` of an integer: optional minus sign, then the digits. */
  function FormatInt(i: int): (s: string)
    ensures ParseInt(s) == Some(i)
    ensures (|s| > 0 && s[0] == '-') <==> i < 0
    ensures var d := if i < 0 then s[1..] else s; |d| > 1 ==> d[0] != '0'
  {
    if i < 0 then
      DigitsRoundTrip(-i);
      var s := "-" + Digits(-i);
      assert s[1..] == Digits(-i);
      s
    else
      DigitsRoundTrip(i);
      Digits(i)
  }

  /** Reads back a string produced by FormatInt. */
  function ParseInt(s: string): Option<int> {
    if |s| > 0 && s[0] == '-' then
      if |s| > 1 && forall i :: 1 <= i < |s| ==> IsDigit(s[i]) then
        Some(-(DigitsValue(s[1..]) as int))
      else None
    else if |s| > 0 && forall i :: 0 <= i < |s| ==> IsDigit(s[i]) then
      Some(DigitsValue(s))
    else None
  }

  /** The text an f-string interpolates for the Patient ID. */
  function FormatId(id: PatientId): string {
    match id
    case NumericId(n) => FormatInt(n)
    case TextId(t) => t
  }

  /**
    `f"{row['Patient ID']}@example.com"`: the address is exactly the Patient
    ID's text followed by "@example.com".
   */
  function Address(id: PatientId): (a: string)
    ensures LocalPart(a) == Some(FormatId(id))
  {
    var a := FormatId(id) + AddressSuffix;
    assert a[..|a| - |AddressSuffix|] == FormatId(id);
    assert a[|a| - |AddressSuffix|..] == AddressSuffix;
    a
  }

  /** The part of an address before the fixed suffix, if it carries that suffix. */
  function LocalPart(address: string): Option<string> {
    if |address| >= |AddressSuffix| && address[|address| - |AddressSuffix|..] == AddressSuffix then
      Some(address[..|address| - |AddressSuffix|])
    else None
  }

  /** Distinct numeric Patient IDs reach distinct addresses. */
  lemma NumericAddressInjective(m: int, n: int)
    ensures Address(NumericId(m)) == Address(NumericId(n)) <==> m == n
  {
  }

  /**
    The body of the reminder for a patient called `name`: it starts with the
    greeting, ends with the fixed closing text, and the name in between is
    recoverable.
   */
  function Body(name: string): (b: string)
    ensures NameInBody(b) == Some(name)
    ensures b[..|Greeting|] == Greeting
    ensures b[|b| - |Closing|..] == Closing
  {
    var b := Greeting + name + Closing;
    assert b[..|Greeting|] == Greeting;
    assert b[|b| - |Closing|..] == Closing;
    assert b[|Greeting|..|b| - |Closing|] == name;
    b
  }

  /** Recovers the name from a reminder body, if the text has the template's shape. */
  function NameInBody(body: string): Option<string> {
    if |body| >= |Greeting| + |Closing|
       && body[..|Greeting|] == Greeting
       && body[|body| - |Closing|..] == Closing
    then Some(body[|Greeting|..|body| - |Closing|])
    else None
  }

  /** Two bodies are equal only for equal names; everything but the name is fixed text. */
  lemma BodyInjective(a: string, b: string)
    ensures Body(a) == Body(b) <==> a == b
  {
  }

  /** `send_email(to_email, patient_name)` builds this message. */
  function Compose(to: string, name: string): (e: Email)
    ensures e.from == FromEmail && e.to == to && e.subject == Subject
    ensures NameInBody(e.body) == Some(name)
    ensures |e.body| == |Greeting| + |name| + |Closing|
  {
    Email(FromEmail, to, Subject, Body(name))
  }
}
