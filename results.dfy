/**
 * The poll-results message sent to group admins when a poll expires: its
 * subject, its text, and the decimal rendering of the counters in it.
 */
module Results {
  import opened Data

  /**
   * One call of the results mailer: the admin it goes to, the poll as it was
   * when it expired, and the name of its group. The message itself is
   * `ComposeResultsMail` of it.
   */
  datatype Notice = Notice(to: string, poll: Poll, groupName: string)

  /** A composed message. Delivery itself is outside the model. */
  datatype Mail = Mail(to: string, subject: string, text: string)

  predicate IsDigit(c: char) {
    '0' <= c <= '9'
  }

  function DigitChar(d: nat): (c: char)
    requires d < 10
    ensures IsDigit(c)
  {
    ('0' as int + d) as char
  }

  function DigitValue(c: char): nat
    requires IsDigit(c)
  {
    c as int - '0' as int
  }

  /** How a JavaScript template literal renders a non-negative integer counter. */
  function NatToString(n: nat): (s: string)
    ensures |s| > 0
    ensures forall i :: 0 <= i < |s| ==> IsDigit(s[i])
    ensures s[0] == '0' ==> n == 0
    decreases n
  {
    if n < 10 then [DigitChar(n)] else NatToString(n / 10) + [DigitChar(n % 10)]
  }

  /** The value of a string of decimal digits. */
  function ParseDecimal(s: string): nat
    requires forall i :: 0 <= i < |s| ==> IsDigit(s[i])
  {
    if s == [] then 0 else ParseDecimal(s[..|s| - 1]) * 10 + DigitValue(s[|s| - 1])
  }

  /** The rendered counter reads back as the same number, so the text reports counts exactly. */
  lemma {:induction false} NatToStringRoundTrip(n: nat)
    ensures ParseDecimal(NatToString(n)) == n
    decreases n
  {
    var s := NatToString(n);
    if n >= 10 {
      NatToStringRoundTrip(n / 10);
      assert s[..|s| - 1] == NatToString(n / 10);
    }
  }

  /** The heading line of the results text. */
  function Heading(title: string, groupName: string): string {
    "Poll \"" + title + "\" in group \"" + groupName + "\" has ended.\n\nResults:\n"
  }

  /** One line per option, in the options' order: `<name>: <votes> votes`. */
  function OptionLines(os: seq<PollOption>): string {
    if os == [] then []
    else OptionLines(os[..|os| - 1]) + os[|os| - 1].optionName + ": " + NatToString(os[|os| - 1].votes) + " votes\n"
  }

  /** The complete results text of a poll in a group. */
  function ResultsText(p: Poll, groupName: string): string {
    Heading(p.title, groupName) + OptionLines(p.options) + "\nTotal votes: " + NatToString(p.votes)
  }

  /** The subject line of the results message. */
  function Subject(p: Poll): string {
    "Poll Results: " + p.title
  }

  /** Builds the results text line by line, as the mailer does before sending. */
  method BuildResultsText(p: Poll, groupName: string) returns (text: string)
    ensures text == ResultsText(p, groupName)
    ensures |text| > |Heading(p.title, groupName)|
    ensures text[..|Heading(p.title, groupName)|] == Heading(p.title, groupName)
  {
    text := Heading(p.title, groupName);
    var i := 0;
    while i < |p.options|
      invariant 0 <= i <= |p.options|
      invariant text == Heading(p.title, groupName) + OptionLines(p.options[..i])
    {
      var o := p.options[i];
      assert p.options[..i + 1][..i] == p.options[..i];
      text := text + o.optionName + ": " + NatToString(o.votes) + " votes\n";
      i := i + 1;
    }
    assert p.options[..i] == p.options;
    text := text + "\nTotal votes: " + NatToString(p.votes);
  }

  /** The results mailer without its transport: the message for one notice. */
  method ComposeResultsMail(n: Notice) returns (m: Mail)
    ensures m.to == n.to && m.subject == Subject(n.poll)
    ensures m.text == ResultsText(n.poll, n.groupName)
    ensures m.text[..|Heading(n.poll.title, n.groupName)|] == Heading(n.poll.title, n.groupName)
  {
    var text := BuildResultsText(n.poll, n.groupName);
    m := Mail(n.to, Subject(n.poll), text);
  }
}
