/** How test results travel to rank 0: after every test each other rank gathers its number of results
    to rank 0 and sends six messages per result, while rank 0 receives them rank by rank. There is no
    barrier, so a fast rank may be several tests ahead of the collector. */
module TestCollection {
  import opened Scans
  import opened Sequences

  datatype TestResult = TestResult(failed: bool, fileName: string, line: int, text: string)

  datatype Message = Number(value: int) | Chars(chars: string)

  const NUL: char := '\0'
  const FIELDS: nat := 6

  // ----- one result -----

  /** The characters sent for a string; one of the two printers sends the terminating null as well. */
  function Payload(terminated: bool, s: string): string {
    if terminated then s + [NUL] else s
  }

  /** The C string a buffer holds: everything before the first null. */
  function CString(buffer: string): string {
    if buffer == [] || buffer[0] == NUL then [] else [buffer[0]] + CString(buffer[1..])
  }

  function Text(terminated: bool, buffer: string): string {
    if terminated then CString(buffer) else buffer
  }

  function EncodeResult(terminated: bool, r: TestResult): (messages: seq<Message>)
    ensures |messages| == FIELDS
  {
    [Number(if r.failed then 1 else 0),
     Number(|Payload(terminated, r.fileName)|),
     Number(r.line),
     Number(|Payload(terminated, r.text)|),
     Chars(Payload(terminated, r.fileName)),
     Chars(Payload(terminated, r.text))]
  }

  predicate IsSize(m: Message, n: nat) {
    m.Number? && m.value == n
  }

  /** The receive posted after these messages of a result takes m: the kinds agree, a size is not
      negative, and a text has exactly the size that was announced. */
  predicate Accepts(received: seq<Message>, m: Message)
    requires |received| < FIELDS
  {
    match |received|
    case 0 => m.Number?
    case 1 => m.Number? && m.value >= 0
    case 2 => m.Number?
    case 3 => m.Number? && m.value >= 0
    case 4 => m.Chars? && IsSize(received[1], |m.chars|)
    case _ => m.Chars? && IsSize(received[3], |m.chars|)
  }

  ghost predicate IsComplete(received: seq<Message>) {
    && |received| == FIELDS
    && forall i | 0 <= i < FIELDS :: Accepts(received[..i], received[i])
  }

  /** The result rebuilt from six messages. The two printers test the status differently. */
  function DecodeResult(terminated: bool, received: seq<Message>): TestResult
    requires IsComplete(received)
  {
    assert Accepts(received[..0], received[0]) && Accepts(received[..2], received[2]);
    assert Accepts(received[..4], received[4]) && Accepts(received[..5], received[5]);
    TestResult(
      if terminated then received[0].value != 0 else received[0].value == 1,
      Text(terminated, received[4].chars), received[2].value, Text(terminated, received[5].chars))
  }

  lemma {:induction false} CStringOf(s: string)
    ensures NUL !in CString(s + [NUL])
    ensures CString(s + [NUL]) == s <==> NUL !in s
  {
    if s == [] {
      assert s + [NUL] == [NUL];
    } else {
      var rest := s[1..];
      assert (s + [NUL])[1..] == rest + [NUL];
      CStringOf(rest);
      assert s == [s[0]] + rest;
      if s[0] != NUL && CString(s + [NUL]) == s {
        assert CString(s + [NUL])[1..] == CString(rest + [NUL]);
      }
    }
  }

  /** A result survives the journey if and only if its strings are C strings, or nulls are not sent. */
  ghost predicate IsSendable(terminated: bool, r: TestResult) {
    terminated ==> NUL !in r.fileName && NUL !in r.text
  }

  lemma EncodingIsAccepted(terminated: bool, r: TestResult, i: nat)
    requires i < FIELDS
    ensures Accepts(EncodeResult(terminated, r)[..i], EncodeResult(terminated, r)[i])
  {}

  lemma DecodeEncode(terminated: bool, r: TestResult)
    ensures IsComplete(EncodeResult(terminated, r))
    ensures DecodeResult(terminated, EncodeResult(terminated, r)) == r <==> IsSendable(terminated, r)
  {
    forall i | 0 <= i < FIELDS ensures Accepts(EncodeResult(terminated, r)[..i], EncodeResult(terminated, r)[i]) {
      EncodingIsAccepted(terminated, r, i);
    }
    CStringOf(r.fileName);
    CStringOf(r.text);
  }

  /** What a receive takes, told by what was sent: after the first j messages of a result, a number where
      one is due, not negative if it is a size, and a text only if it is as long as announced. */
  lemma AcceptedAfter(terminated: bool, r: TestResult, j: nat, m: Message)
    requires j < FIELDS
    ensures Accepts(EncodeResult(terminated, r)[..j], m) <==>
            match j
            case 0 => m.Number?
            case 1 => m.Number? && m.value >= 0
            case 2 => m.Number?
            case 3 => m.Number? && m.value >= 0
            case 4 => m.Chars? && |m.chars| == |r.fileName| + if terminated then 1 else 0
            case _ => m.Chars? && |m.chars| == |r.text| + if terminated then 1 else 0
  {}

  /** The two printers read the same failure out of a status exactly if it is 0 or 1. */
  lemma StatusTestsAgreeIff(received: seq<Message>)
    requires IsComplete(received)
    ensures received[0].Number? && DecodeResult(true, received).failed == (received[0].value != 0)
    ensures DecodeResult(true, received).failed == DecodeResult(false, received).failed
       <==> received[0].value == 0 || received[0].value == 1
  {
    assert Accepts(received[..0], received[0]);
  }

  // ----- lists of results -----

  function Encode(terminated: bool, results: seq<TestResult>): (messages: seq<Message>)
    ensures |messages| == FIELDS * |results|
  {
    if results == [] then []
    else Encode(terminated, results[..|results| - 1]) + EncodeResult(terminated, results[|results| - 1])
  }

  lemma {:induction false} EncodeAt(terminated: bool, results: seq<TestResult>, i: nat, j: nat)
    requires i < |results| && j < FIELDS
    ensures FIELDS * i + j < |Encode(terminated, results)|
    ensures Encode(terminated, results)[FIELDS * i + j] == EncodeResult(terminated, results[i])[j]
  {
    var last := |results| - 1;
    if i < last {
      EncodeAt(terminated, results[..last], i, j);
    }
  }

  /** The six messages of every result, in order; one of the printers sends the terminating nulls as well. */
  ghost predicate AreSixMessages(terminated: bool, r: TestResult, messages: seq<Message>) {
    var fileName, text := r.fileName + if terminated then "\0" else "", r.text + if terminated then "\0" else "";
    messages == [Number(if r.failed then 1 else 0), Number(|fileName|), Number(r.line), Number(|text|),
                 Chars(fileName), Chars(text)]
  }

  lemma EncodedMessages(terminated: bool, results: seq<TestResult>, i: nat)
    requires i < |results|
    ensures FIELDS * i + FIELDS <= |Encode(terminated, results)|
    ensures AreSixMessages(terminated, results[i], Encode(terminated, results)[FIELDS * i..FIELDS * i + FIELDS])
  {
    var messages := Encode(terminated, results)[FIELDS * i..FIELDS * i + FIELDS];
    forall j: nat | j < FIELDS ensures messages[j] == EncodeResult(terminated, results[i])[j] {
      EncodeAt(terminated, results, i, j);
    }
    assert messages == EncodeResult(terminated, results[i]);
    assert results[i].fileName + "" == results[i].fileName && results[i].text + "" == results[i].text;
  }

  /** What one rank sends in tests a up to but not including b. */
  function Stream(terminated: bool, tests: seq<seq<seq<TestResult>>>, r: nat, a: nat, b: nat): seq<Message>
    requires b <= |tests| && forall t | 0 <= t < |tests| :: r < |tests[t]|
    decreases b
  {
    if b <= a then [] else Stream(terminated, tests, r, a, b - 1) + Encode(terminated, tests[b - 1][r])
  }

  lemma {:induction false} StreamFront(terminated: bool, tests: seq<seq<seq<TestResult>>>, r: nat, a: nat, b: nat)
    requires a < b <= |tests| && forall t | 0 <= t < |tests| :: r < |tests[t]|
    ensures Stream(terminated, tests, r, a, b)
         == Encode(terminated, tests[a][r]) + Stream(terminated, tests, r, a + 1, b)
    decreases b
  {
    if b == a + 1 {
      assert Stream(terminated, tests, r, a, a) == [];
    } else {
      StreamFront(terminated, tests, r, a, b - 1);
      var front, last := Encode(terminated, tests[a][r]), Encode(terminated, tests[b - 1][r]);
      var middle := Stream(terminated, tests, r, a + 1, b - 1);
      assert Stream(terminated, tests, r, a + 1, b) == middle + last;
      assert (front + middle) + last == front + (middle + last);
    }
  }

  // ----- the printer objects -----

  /** A printer on one rank. */
  class Printer {
    const terminated: bool
    var resultVector: seq<TestResult>

    constructor (terminated: bool)
      ensures this.terminated == terminated && resultVector == []
    {
      this.terminated := terminated;
      resultVector := [];
    }

    method OnTestPartResult(result: TestResult)
      modifies this
      ensures resultVector == old(resultVector) + [result]
    {
      resultVector := resultVector + [result];
    }

    /** OnTestEnd on the ranks other than 0: what is gathered and what is sent, in order. */
    method SendResults() returns (localResultCount: nat, sent: seq<Message>)
      modifies this
      ensures localResultCount == |old(resultVector)|
      ensures sent == Encode(terminated, old(resultVector)) && |sent| == FIELDS * |old(resultVector)|
      ensures forall i | 0 <= i < |old(resultVector)| ::
        AreSixMessages(terminated, old(resultVector)[i], sent[FIELDS * i..FIELDS * i + FIELDS])
      ensures resultVector == []
    {
      localResultCount := |resultVector|;
      sent := [];
      for i := 0 to localResultCount
        invariant resultVector == old(resultVector)
        invariant sent == Encode(terminated, resultVector[..i])
      {
        var result := resultVector[i];
        var fileName, text := Payload(terminated, result.fileName), Payload(terminated, result.text);
        assert resultVector[..i + 1][..i] == resultVector[..i];
        sent := sent + [Number(if result.failed then 1 else 0), Number(|fileName|), Number(result.line), Number(|text|),
                        Chars(fileName), Chars(text)];
      }
      assert resultVector[..localResultCount] == resultVector;
      forall i | 0 <= i < |resultVector|
        ensures AreSixMessages(terminated, resultVector[i], sent[FIELDS * i..FIELDS * i + FIELDS])
      {
        EncodedMessages(terminated, resultVector, i);
      }
      resultVector := [];
    }
  }

  /** The receives of rank 0 for one other rank: it takes exactly what that rank sent in this test, and
      every receive gets a message of the kind and size it expects. */
  method ReceiveResults(terminated: bool, count: nat, incoming: seq<Message>, ghost sent: seq<TestResult>,
      ghost later: seq<Message>)
    returns (results: seq<TestResult>, rest: seq<Message>)
    requires count == |sent| && incoming == Encode(terminated, sent) + later
    requires forall i | 0 <= i < |sent| :: IsSendable(terminated, sent[i])
    ensures results == sent && rest == later
  {
    results := [];
    for i := 0 to count
      invariant results == sent[..i]
    {
      var received: seq<Message> := [];
      for j := 0 to FIELDS
        invariant received == EncodeResult(terminated, sent[i])[..j]
      {
        EncodeAt(terminated, sent, i, j);
        EncodingIsAccepted(terminated, sent[i], j);
        assert Accepts(received, incoming[FIELDS * i + j]);
        received := received + [incoming[FIELDS * i + j]];
      }
      assert received == EncodeResult(terminated, sent[i]);
      DecodeEncode(terminated, sent[i]);
      results := results + [DecodeResult(terminated, received)];
    }
    rest := incoming[FIELDS * count..];
  }

  // ----- the protocol -----

  /** One of the other ranks: how many tests it has contributed its count for, and the messages of the
      last of them it has still to send. */
  datatype Sender = Sender(test: nat, toSend: seq<Message>)

  /** Where rank 0 is: waiting in the gather, receiving from one rank, or broken by a message it did not expect. */
  datatype Phase =
    | Gathering
    | Receiving(expected: seq<nat>, rank: nat, collected: seq<seq<TestResult>>, partial: seq<Message>)
    | Broken

  /** Senders, channels and counts are indexed by sender: number r stands for rank r + 1. The results of
      rank 0 do not travel. */
  datatype State = State(senders: seq<Sender>, channels: seq<seq<Message>>, counts: seq<seq<nat>>,
                         reports: seq<seq<seq<TestResult>>>, phase: Phase)

  /** What all ranks found, per test: fixed for the whole run. */
  datatype Run = Run(terminated: bool, size: nat, tests: seq<seq<seq<TestResult>>>)

  ghost predicate IsRun(run: Run) {
    && (forall t | 0 <= t < |run.tests| :: |run.tests[t]| == run.size)
    && forall t, r, i | 0 <= t < |run.tests| && 0 <= r < |run.tests[t]| && 0 <= i < |run.tests[t][r]| ::
         IsSendable(run.terminated, run.tests[t][r][i])
  }

  function Initial(run: Run): State {
    State(seq(run.size, _ => Sender(0, [])), seq(run.size, _ => []), seq(run.size, _ => []), [], Gathering)
  }

  datatype Step =
    | Contribute(r: nat)
    | SendBuffered(r: nat)
    | SendDirectly(r: nat)
    | Gather
    | Receive
    | NextRank
    | FinishTest

  ghost predicate HasShape(run: Run, s: State) {
    && |s.senders| == |s.channels| == |s.counts| == run.size
    && |s.reports| <= |run.tests|
    && (s.phase.Receiving? ==> |s.phase.expected| == |s.phase.collected| == run.size && |s.phase.partial| < FIELDS)
  }

  /** Rank 0 is waiting for a message of sender r. */
  predicate IsWaitingFor(s: State, r: nat) {
    && s.phase.Receiving? && s.phase.rank == r
    && r < |s.phase.expected| && r < |s.phase.collected| && |s.phase.collected[r]| < s.phase.expected[r]
  }

  ghost predicate IsEnabled(run: Run, s: State, step: Step)
    requires HasShape(run, s)
  {
    match step
    case Contribute(r) => r < run.size && s.senders[r].toSend == [] && s.senders[r].test < |run.tests|
    case SendBuffered(r) => r < run.size && s.senders[r].toSend != []
    case SendDirectly(r) => r < run.size && s.senders[r].toSend != [] && s.channels[r] == [] && IsWaitingFor(s, r)
    case Gather => s.phase.Gathering? && |s.reports| < |run.tests| && forall r | 0 <= r < run.size :: s.counts[r] != []
    case Receive =>
      exists r: nat {:trigger IsWaitingFor(s, r)} | r < run.size :: IsWaitingFor(s, r) && s.channels[r] != []
    case NextRank =>
      && s.phase.Receiving? && s.phase.rank < run.size
      && |s.phase.collected[s.phase.rank]| == s.phase.expected[s.phase.rank]
    case FinishTest => s.phase.Receiving? && s.phase.rank == run.size
  }

  /** A step that needs no buffer space for messages: a count is taken by a waiting gather, a message by a
      waiting receive. */
  ghost predicate IsUnbuffered(s: State, step: Step) {
    !step.SendBuffered? && (step.Contribute? ==> s.phase.Gathering? && step.r < |s.counts| && s.counts[step.r] == [])
  }

  /** Rank 0 takes the message for the receive it has posted. */
  ghost function Consume(run: Run, phase: Phase, m: Message): Phase
    requires phase.Receiving? && phase.rank < |phase.collected| && |phase.partial| < FIELDS
  {
    if !Accepts(phase.partial, m) then Broken
    else
      var received := phase.partial + [m];
      if |received| < FIELDS then phase.(partial := received)
      else if !IsComplete(received) then Broken
      else
        var list := phase.collected[phase.rank] + [DecodeResult(run.terminated, received)];
        phase.(partial := [], collected := phase.collected[phase.rank := list])
  }

  ghost function Apply(run: Run, s: State, step: Step): State
    requires IsRun(run) && HasShape(run, s) && IsEnabled(run, s, step)
  {
    match step
    case Contribute(r) =>
      var sender := s.senders[r];
      var results := run.tests[sender.test][r];
      s.(senders := s.senders[r := Sender(sender.test + 1, Encode(run.terminated, results))],
         counts := s.counts[r := s.counts[r] + [|results|]])
    case SendBuffered(r) =>
      var sender := s.senders[r];
      s.(senders := s.senders[r := sender.(toSend := sender.toSend[1..])],
         channels := s.channels[r := s.channels[r] + [sender.toSend[0]]])
    case SendDirectly(r) =>
      var sender := s.senders[r];
      s.(senders := s.senders[r := sender.(toSend := sender.toSend[1..])],
         phase := Consume(run, s.phase, sender.toSend[0]))
    case Gather =>
      s.(counts := seq(run.size, r requires 0 <= r < run.size => s.counts[r][1..]),
         phase := Receiving(seq(run.size, r requires 0 <= r < run.size => s.counts[r][0]), 0,
                            seq(run.size, _ => []), []))
    case Receive =>
      var r := s.phase.rank;
      s.(channels := s.channels[r := s.channels[r][1..]], phase := Consume(run, s.phase, s.channels[r][0]))
    case NextRank => s.(phase := s.phase.(rank := s.phase.rank + 1))
    case FinishTest => s.(reports := s.reports + [s.phase.collected], phase := Gathering)
  }

  // ----- what every run keeps -----

  /** Messages of the current test taken from sender r. */
  function Taken(s: State, r: nat): nat {
    if s.phase.Receiving? && r < |s.phase.collected| then
      FIELDS * |s.phase.collected[r]| + (if r == s.phase.rank then |s.phase.partial| else 0)
    else 0
  }

  /** Gathers rank 0 has completed. */
  function Gathered(s: State): nat {
    |s.reports| + (if s.phase.Receiving? then 1 else 0)
  }

  /** The counts gathered but not yet taken: those of the tests from `gathered` up to the sender's own. */
  ghost predicate CountsMatch(run: Run, r: nat, gathered: nat, test: nat, counts: seq<nat>)
    requires IsRun(run) && r < run.size
  {
    && gathered <= test <= |run.tests| && |counts| == test - gathered
    && forall i | 0 <= i < |counts| :: counts[i] == |run.tests[gathered + i][r]|
  }

  /** What is in the channel and what the sender has still to send is its stream since test `first`, without
      the messages taken already. */
  ghost predicate OnItsWay(run: Run, r: nat, first: nat, sender: Sender, channel: seq<Message>, taken: nat)
    requires IsRun(run) && r < run.size
  {
    && sender.test <= |run.tests|
    && (if sender.test == 0 then sender.toSend == []
        else |sender.toSend| <= |Encode(run.terminated, run.tests[sender.test - 1][r])|)
    && var stream := Stream(run.terminated, run.tests, r, first, sender.test);
       taken <= |stream| && channel + sender.toSend == stream[taken..]
  }

  ghost predicate SenderIsGood(run: Run, s: State, r: nat)
    requires IsRun(run) && HasShape(run, s) && r < run.size
  {
    && CountsMatch(run, r, Gathered(s), s.senders[r].test, s.counts[r])
    && OnItsWay(run, r, |s.reports|, s.senders[r], s.channels[r], Taken(s, r))
  }

  /** What rank 0 has of sender r while it receives. */
  ghost predicate CollectedIsGood(run: Run, s: State, r: nat)
    requires IsRun(run) && HasShape(run, s) && r < run.size && s.phase.Receiving? && |s.reports| < |run.tests|
  {
    var p, sent := s.phase, run.tests[|s.reports|][r];
    && p.expected[r] == |sent|
    && p.collected[r] <= sent
    && (r < p.rank ==> p.collected[r] == sent)
    && (r > p.rank ==> p.collected[r] == [])
    && (r == p.rank ==> p.partial == [] || |p.collected[r]| < |sent|)
    && (r == p.rank && p.partial != [] ==> p.partial <= EncodeResult(run.terminated, sent[|p.collected[r]|]))
  }

  ghost predicate CollectorIsGood(run: Run, s: State)
    requires IsRun(run) && HasShape(run, s)
  {
    && s.reports == run.tests[..|s.reports|]
    && !s.phase.Broken?
    && (s.phase.Receiving? ==>
          && |s.reports| < |run.tests| && s.phase.rank <= run.size
          && (s.phase.rank == run.size ==> s.phase.partial == [])
          && forall r: nat | r < run.size :: CollectedIsGood(run, s, r))
  }

  ghost predicate Invariant(run: Run, s: State)
    requires IsRun(run)
  {
    && HasShape(run, s)
    && CollectorIsGood(run, s)
    && forall r: nat | r < run.size :: SenderIsGood(run, s, r)
  }

  lemma InitialIsGood(run: Run)
    requires IsRun(run)
    ensures Invariant(run, Initial(run))
  {
    var s := Initial(run);
    forall r: nat | r < run.size ensures SenderIsGood(run, s, r) {
      assert Stream(run.terminated, run.tests, r, 0, 0) == [];
    }
  }

  /** The next message for rank 0 is the one it waits for. */
  lemma NextMessageIsExpected(run: Run, s: State, r: nat, m: Message)
    requires IsRun(run) && Invariant(run, s) && r < run.size && IsWaitingFor(s, r)
    requires var available := s.channels[r] + s.senders[r].toSend; available != [] && m == available[0]
    ensures |s.phase.collected[r]| < |run.tests[|s.reports|][r]|
    ensures var message := EncodeResult(run.terminated, run.tests[|s.reports|][r][|s.phase.collected[r]|]);
            s.phase.partial + [m] <= message && Accepts(s.phase.partial, m)
  {
    var sent, i, j := run.tests[|s.reports|][r], |s.phase.collected[r]|, |s.phase.partial|;
    assert CollectedIsGood(run, s, r) && SenderIsGood(run, s, r);
    StreamFront(run.terminated, run.tests, r, |s.reports|, s.senders[r].test);
    var stream := Stream(run.terminated, run.tests, r, |s.reports|, s.senders[r].test);
    assert stream[Taken(s, r)..][0] == stream[Taken(s, r)];
    EncodeAt(run.terminated, sent, i, j);
    assert m == EncodeResult(run.terminated, sent[i])[j];
    EncodingIsAccepted(run.terminated, sent[i], j);
    assert s.phase.partial == EncodeResult(run.terminated, sent[i])[..j];
  }

  /** Taking it keeps the collector good, and counts as one message taken from r and none from others. */
  lemma ConsumeKeeps(run: Run, s: State, r: nat, m: Message, s': State)
    requires IsRun(run) && Invariant(run, s) && r < run.size && IsWaitingFor(s, r)
    requires var available := s.channels[r] + s.senders[r].toSend; available != [] && m == available[0]
    requires s'.phase == Consume(run, s.phase, m) && s'.reports == s.reports
    requires |s'.senders| == |s'.channels| == |s'.counts| == run.size
    ensures HasShape(run, s') && CollectorIsGood(run, s') && s'.phase.Receiving?
    ensures Taken(s', r) == Taken(s, r) + 1
    ensures forall q: nat | q < run.size && q != r :: Taken(s', q) == Taken(s, q)
  {
    NextMessageIsExpected(run, s, r, m);
    var sent, i := run.tests[|s.reports|][r], |s.phase.collected[r]|;
    assert CollectedIsGood(run, s, r);
    var received := s.phase.partial + [m];
    if |received| == FIELDS {
      DecodeEncode(run.terminated, sent[i]);
      assert received == EncodeResult(run.terminated, sent[i]);
      assert IsSendable(run.terminated, sent[i]);
      assert s'.phase.collected[r] == s.phase.collected[r] + [sent[i]] <= sent;
    }
    forall q: nat | q < run.size ensures CollectedIsGood(run, s', q) {
      assert CollectedIsGood(run, s, q);
    }
  }

  /** A step that does not touch a sender, its channel or its counts keeps what is known of it. */
  lemma UntouchedSender(run: Run, s: State, s': State, q: nat)
    requires IsRun(run) && HasShape(run, s) && HasShape(run, s') && q < run.size && SenderIsGood(run, s, q)
    requires s'.senders[q] == s.senders[q] && s'.channels[q] == s.channels[q] && s'.counts[q] == s.counts[q]
    requires s'.reports == s.reports && Gathered(s') == Gathered(s) && Taken(s', q) == Taken(s, q)
    ensures SenderIsGood(run, s', q)
  {}

  lemma UntouchedCollector(run: Run, s: State, s': State)
    requires IsRun(run) && HasShape(run, s) && HasShape(run, s') && CollectorIsGood(run, s)
    requires s'.reports == s.reports && s'.phase == s.phase
    ensures CollectorIsGood(run, s')
  {
    if s'.phase.Receiving? {
      forall q: nat | q < run.size ensures CollectedIsGood(run, s', q) {
        assert CollectedIsGood(run, s, q);
      }
    }
  }

  lemma DropOfConcat<T>(a: seq<T>, b: seq<T>, n: nat)
    requires n <= |a|
    ensures (a + b)[n..] == a[n..] + b
  {}

  /** Entering the next test puts all its messages on their way, behind those of the tests before. */
  lemma ContributedSender(run: Run, r: nat, first: nat, sender: Sender, channel: seq<Message>, taken: nat)
    requires IsRun(run) && r < run.size && first <= sender.test < |run.tests|
    requires sender.toSend == [] && OnItsWay(run, r, first, sender, channel, taken)
    ensures var sent := Encode(run.terminated, run.tests[sender.test][r]);
            OnItsWay(run, r, first, Sender(sender.test + 1, sent), channel, taken)
  {
    var before := Stream(run.terminated, run.tests, r, first, sender.test);
    var sent := Encode(run.terminated, run.tests[sender.test][r]);
    assert Stream(run.terminated, run.tests, r, first, sender.test + 1) == before + sent;
    DropOfConcat(before, sent, taken);
    assert channel + [] == channel;
  }

  lemma ContributedCounts(run: Run, r: nat, gathered: nat, test: nat, counts: seq<nat>)
    requires IsRun(run) && r < run.size && test < |run.tests| && CountsMatch(run, r, gathered, test, counts)
    ensures CountsMatch(run, r, gathered, test + 1, counts + [|run.tests[test][r]|])
  {}

  lemma ContributorIsGood(run: Run, s: State, r: nat)
    requires IsRun(run) && Invariant(run, s) && IsEnabled(run, s, Contribute(r))
    ensures HasShape(run, Apply(run, s, Contribute(r))) && SenderIsGood(run, Apply(run, s, Contribute(r)), r)
  {
    assert SenderIsGood(run, s, r);
    ContributedSender(run, r, |s.reports|, s.senders[r], s.channels[r], Taken(s, r));
    ContributedCounts(run, r, Gathered(s), s.senders[r].test, s.counts[r]);
  }

  lemma ContributeKeeps(run: Run, s: State, r: nat)
    requires IsRun(run) && Invariant(run, s) && IsEnabled(run, s, Contribute(r))
    ensures Invariant(run, Apply(run, s, Contribute(r)))
  {
    var s' := Apply(run, s, Contribute(r));
    ContributorIsGood(run, s, r);
    UntouchedCollector(run, s, s');
    forall q: nat | q < run.size ensures SenderIsGood(run, s', q) {
      if q != r {
        UntouchedSender(run, s, s', q);
      }
    }
  }

  /** A message that moves from the sender to the channel is still on its way, in the same place. */
  lemma BufferedSender(run: Run, r: nat, first: nat, sender: Sender, channel: seq<Message>, taken: nat)
    requires IsRun(run) && r < run.size && sender.toSend != [] && OnItsWay(run, r, first, sender, channel, taken)
    ensures OnItsWay(run, r, first, sender.(toSend := sender.toSend[1..]), channel + [sender.toSend[0]], taken)
  {
    assert channel + [sender.toSend[0]] + sender.toSend[1..] == channel + sender.toSend;
  }

  lemma SendBufferedKeeps(run: Run, s: State, r: nat)
    requires IsRun(run) && Invariant(run, s) && IsEnabled(run, s, SendBuffered(r))
    ensures Invariant(run, Apply(run, s, SendBuffered(r)))
  {
    var s' := Apply(run, s, SendBuffered(r));
    assert SenderIsGood(run, s, r);
    BufferedSender(run, r, |s.reports|, s.senders[r], s.channels[r], Taken(s, r));
    assert SenderIsGood(run, s', r);
    UntouchedCollector(run, s, s');
    forall q: nat | q < run.size ensures SenderIsGood(run, s', q) {
      if q != r {
        UntouchedSender(run, s, s', q);
      }
    }
  }

  /** One message less on its way, one more taken. */
  lemma ReceivedSender(run: Run, r: nat, first: nat, sender: Sender, channel: seq<Message>, taken: nat,
      sender': Sender, channel': seq<Message>)
    requires IsRun(run) && r < run.size && OnItsWay(run, r, first, sender, channel, taken)
    requires channel + sender.toSend != [] && channel' + sender'.toSend == (channel + sender.toSend)[1..]
    requires sender'.test == sender.test && |sender'.toSend| <= |sender.toSend|
    ensures OnItsWay(run, r, first, sender', channel', taken + 1)
  {
    var stream := Stream(run.terminated, run.tests, r, first, sender.test);
    assert stream[taken..][1..] == stream[taken + 1..];
  }

  lemma SendDirectlyKeeps(run: Run, s: State, r: nat)
    requires IsRun(run) && Invariant(run, s) && IsEnabled(run, s, SendDirectly(r))
    ensures Invariant(run, Apply(run, s, SendDirectly(r)))
  {
    var s' := Apply(run, s, SendDirectly(r));
    ConsumeKeeps(run, s, r, s.senders[r].toSend[0], s');
    assert s'.channels[r] + s'.senders[r].toSend == (s.channels[r] + s.senders[r].toSend)[1..];
    assert SenderIsGood(run, s, r);
    ReceivedSender(run, r, |s.reports|, s.senders[r], s.channels[r], Taken(s, r), s'.senders[r], s'.channels[r]);
    assert SenderIsGood(run, s', r);
    forall q: nat | q < run.size ensures SenderIsGood(run, s', q) {
      if q != r {
        UntouchedSender(run, s, s', q);
      }
    }
  }

  lemma ReceiveKeeps(run: Run, s: State)
    requires IsRun(run) && Invariant(run, s) && IsEnabled(run, s, Receive)
    ensures Invariant(run, Apply(run, s, Receive))
  {
    var s', r := Apply(run, s, Receive), s.phase.rank;
    ConsumeKeeps(run, s, r, s.channels[r][0], s');
    assert s'.channels[r] + s'.senders[r].toSend == (s.channels[r] + s.senders[r].toSend)[1..];
    assert SenderIsGood(run, s, r);
    ReceivedSender(run, r, |s.reports|, s.senders[r], s.channels[r], Taken(s, r), s'.senders[r], s'.channels[r]);
    assert SenderIsGood(run, s', r);
    forall q: nat | q < run.size ensures SenderIsGood(run, s', q) {
      if q != r {
        UntouchedSender(run, s, s', q);
      }
    }
  }

  lemma GatheredCounts(run: Run, r: nat, gathered: nat, test: nat, counts: seq<nat>)
    requires IsRun(run) && r < run.size && counts != [] && CountsMatch(run, r, gathered, test, counts)
    ensures gathered < test && counts[0] == |run.tests[gathered][r]|
    ensures CountsMatch(run, r, gathered + 1, test, counts[1..])
  {}

  lemma GatherKeeps(run: Run, s: State)
    requires IsRun(run) && Invariant(run, s) && IsEnabled(run, s, Gather)
    ensures Invariant(run, Apply(run, s, Gather))
  {
    var s' := Apply(run, s, Gather);
    forall q: nat | q < run.size ensures SenderIsGood(run, s', q) && CollectedIsGood(run, s', q) {
      assert SenderIsGood(run, s, q);
      assert s.counts[q] != [];
      GatheredCounts(run, q, |s.reports|, s.senders[q].test, s.counts[q]);
    }
  }

  lemma NextRankKeeps(run: Run, s: State)
    requires IsRun(run) && Invariant(run, s) && IsEnabled(run, s, NextRank)
    ensures Invariant(run, Apply(run, s, NextRank))
  {
    var s', r := Apply(run, s, NextRank), s.phase.rank;
    assert CollectedIsGood(run, s, r);
    assert s.phase.partial == [];
    forall q: nat | q < run.size ensures SenderIsGood(run, s', q) && CollectedIsGood(run, s', q) {
      assert SenderIsGood(run, s, q) && CollectedIsGood(run, s, q);
      assert Taken(s', q) == Taken(s, q);
    }
  }

  /** Once all messages of a test are taken, those of the later tests are on their way. */
  lemma FinishedSender(run: Run, r: nat, first: nat, sender: Sender, channel: seq<Message>)
    requires IsRun(run) && r < run.size && first < sender.test <= |run.tests|
    requires OnItsWay(run, r, first, sender, channel, FIELDS * |run.tests[first][r]|)
    ensures OnItsWay(run, r, first + 1, sender, channel, 0)
  {
    StreamFront(run.terminated, run.tests, r, first, sender.test);
    var stream := Stream(run.terminated, run.tests, r, first, sender.test);
    assert stream[FIELDS * |run.tests[first][r]|..] == Stream(run.terminated, run.tests, r, first + 1, sender.test);
  }

  lemma FinishTestKeeps(run: Run, s: State)
    requires IsRun(run) && Invariant(run, s) && IsEnabled(run, s, FinishTest)
    ensures Invariant(run, Apply(run, s, FinishTest))
  {
    var s', t := Apply(run, s, FinishTest), |s.reports|;
    forall q: nat | q < run.size ensures s.phase.collected[q] == run.tests[t][q] && SenderIsGood(run, s', q) {
      assert SenderIsGood(run, s, q) && CollectedIsGood(run, s, q);
      FinishedSender(run, q, t, s.senders[q], s.channels[q]);
    }
    assert s.phase.collected == run.tests[t];
    assert run.tests[..t + 1] == run.tests[..t] + [run.tests[t]];
  }

  /** Whatever happens next, in whatever order, the invariant stays. */
  lemma StepKeepsInvariant(run: Run, s: State, step: Step)
    requires IsRun(run) && Invariant(run, s) && IsEnabled(run, s, step)
    ensures Invariant(run, Apply(run, s, step))
  {
    match step
    case Contribute(r) => ContributeKeeps(run, s, r);
    case SendBuffered(r) => SendBufferedKeeps(run, s, r);
    case SendDirectly(r) => SendDirectlyKeeps(run, s, r);
    case Gather => GatherKeeps(run, s);
    case Receive => ReceiveKeeps(run, s);
    case NextRank => NextRankKeeps(run, s);
    case FinishTest => FinishTestKeeps(run, s);
  }

  // ----- whole runs -----

  /** One interleaving: a start of a run, with every choice of order and of buffering. */
  ghost predicate IsTrace(run: Run, states: seq<State>, steps: seq<Step>)
    requires IsRun(run)
  {
    && |states| == |steps| + 1 && states[0] == Initial(run)
    && forall i | 0 <= i < |steps| ::
         && HasShape(run, states[i]) && IsEnabled(run, states[i], steps[i])
         && states[i + 1] == Apply(run, states[i], steps[i])
  }

  /** In every interleaving the invariant holds all the time; in particular no receive ever gets a message
      of the wrong kind or size. */
  lemma {:induction false} TraceKeepsInvariant(run: Run, states: seq<State>, steps: seq<Step>, i: nat)
    requires IsRun(run) && IsTrace(run, states, steps) && i < |states|
    ensures Invariant(run, states[i]) && !states[i].phase.Broken?
  {
    if i == 0 {
      InitialIsGood(run);
    } else {
      TraceKeepsInvariant(run, states, steps, i - 1);
      StepKeepsInvariant(run, states[i - 1], steps[i - 1]);
    }
  }

  /** All tests are reported. */
  predicate IsFinished(run: Run, s: State) {
    s.phase.Gathering? && |s.reports| == |run.tests|
  }

  /** Then rank 0 has every result of every rank, test by test and in order, and nothing is left over:
      no message, no count, no sender with more to do. */
  lemma FinishedMeansDelivered(run: Run, states: seq<State>, steps: seq<Step>, i: nat)
    requires IsRun(run) && IsTrace(run, states, steps) && i < |states| && IsFinished(run, states[i])
    ensures HasShape(run, states[i]) && states[i].reports == run.tests
    ensures forall r | 0 <= r < run.size ::
      states[i].channels[r] == [] && states[i].counts[r] == [] && states[i].senders[r] == Sender(|run.tests|, [])
  {
    var s := states[i];
    TraceKeepsInvariant(run, states, steps, i);
    assert run.tests[..|run.tests|] == run.tests;
    forall r: nat | r < run.size
      ensures s.channels[r] == [] && s.counts[r] == [] && s.senders[r] == Sender(|run.tests|, [])
    {
      assert SenderIsGood(run, s, r);
      assert Stream(run.terminated, run.tests, r, |run.tests|, |run.tests|) == [];
      assert |s.channels[r] + s.senders[r].toSend| == 0;
    }
  }

  /** At any time the reports are exact for the tests so far: results of one test never mix with those of
      the next, although no barrier separates them. */
  lemma ReportsArePrefix(run: Run, states: seq<State>, steps: seq<Step>, i: nat)
    requires IsRun(run) && IsTrace(run, states, steps) && i < |states|
    ensures states[i].reports <= run.tests
  {
    TraceKeepsInvariant(run, states, steps, i);
  }

  /** Nothing has happened on rank 0 or on any sender but r, which has begun to report test t. */
  ghost predicate IsAhead(run: Run, s: State, r: nat, t: nat, toSend: seq<Message>) {
    && HasShape(run, s) && s.phase.Gathering? && s.reports == []
    && forall q | 0 <= q < run.size :: s.senders[q] == if q == r then Sender(t, toSend) else Sender(0, [])
  }

  lemma OneMoreStep(run: Run, states: seq<State>, steps: seq<Step>, step: Step)
      returns (states': seq<State>, steps': seq<Step>)
    requires IsRun(run) && IsTrace(run, states, steps)
    requires HasShape(run, states[|steps|]) && IsEnabled(run, states[|steps|], step)
    ensures IsTrace(run, states', steps') && states'[|steps'|] == Apply(run, states[|steps|], step)
  {
    states', steps' := states + [Apply(run, states[|steps|], step)], steps + [step];
  }

  lemma {:induction false} SendsAll(run: Run, states: seq<State>, steps: seq<Step>, r: nat, t: nat,
      toSend: seq<Message>) returns (states': seq<State>, steps': seq<Step>)
    requires IsRun(run) && IsTrace(run, states, steps) && r < run.size
    requires IsAhead(run, states[|steps|], r, t, toSend)
    ensures IsTrace(run, states', steps') && IsAhead(run, states'[|steps'|], r, t, [])
    decreases |toSend|
  {
    states', steps' := states, steps;
    if toSend != [] {
      states', steps' := OneMoreStep(run, states, steps, SendBuffered(r));
      states', steps' := SendsAll(run, states', steps', r, t, toSend[1..]);
    }
  }

  /** There is no barrier: a rank can be any number of tests ahead before rank 0 and the others do anything. */
  lemma {:induction false} FastRankRunsAhead(run: Run, r: nat, t: nat)
      returns (states: seq<State>, steps: seq<Step>)
    requires IsRun(run) && r < run.size && t <= |run.tests|
    ensures IsTrace(run, states, steps) && IsAhead(run, states[|steps|], r, t, [])
  {
    if t == 0 {
      states, steps := [Initial(run)], [];
    } else {
      states, steps := FastRankRunsAhead(run, r, t - 1);
      states, steps := OneMoreStep(run, states, steps, Contribute(r));
      states, steps := SendsAll(run, states, steps, r, t, Encode(run.terminated, run.tests[t - 1][r]));
    }
  }

  /** If rank 0 waits for a message of r, that message is in the channel or r is about to send it. */
  lemma WaitingIsServed(run: Run, s: State, r: nat)
    requires IsRun(run) && Invariant(run, s) && r < run.size && IsWaitingFor(s, r) && s.channels[r] == []
    ensures s.senders[r].toSend != []
  {
    var t := |s.reports|;
    assert SenderIsGood(run, s, r) && CollectedIsGood(run, s, r);
    StreamFront(run.terminated, run.tests, r, t, s.senders[r].test);
    assert s.channels[r] + s.senders[r].toSend == s.senders[r].toSend;
    assert Taken(s, r) < FIELDS * |run.tests[t][r]|;
  }

  /** A rank whose count is missing in the gather has nothing left to send, so it is on its way there. */
  lemma GatherIsServed(run: Run, s: State, r: nat)
    requires IsRun(run) && Invariant(run, s) && r < run.size
    requires s.phase.Gathering? && |s.reports| < |run.tests| && s.counts[r] == []
    ensures IsEnabled(run, s, Contribute(r))
  {
    assert SenderIsGood(run, s, r);
    assert Stream(run.terminated, run.tests, r, |s.reports|, s.senders[r].test) == [];
    assert |s.channels[r] + s.senders[r].toSend| == 0;
  }

  /** No deadlock: until all is reported some step is possible, even if nothing is ever buffered. */
  lemma NoDeadlock(run: Run, states: seq<State>, steps: seq<Step>, i: nat) returns (step: Step)
    requires IsRun(run) && IsTrace(run, states, steps) && i < |states| && !IsFinished(run, states[i])
    ensures HasShape(run, states[i]) && IsEnabled(run, states[i], step) && IsUnbuffered(states[i], step)
  {
    var s := states[i];
    TraceKeepsInvariant(run, states, steps, i);
    if s.phase.Gathering? {
      step := Gather;
      if r :| 0 <= r < run.size && s.counts[r] == [] {
        GatherIsServed(run, s, r);
        step := Contribute(r);
      }
    } else if s.phase.rank == run.size {
      step := FinishTest;
    } else {
      var r := s.phase.rank;
      assert CollectedIsGood(run, s, r);
      if |s.phase.collected[r]| == s.phase.expected[r] {
        step := NextRank;
      } else {
        assert IsWaitingFor(s, r);
        step := Receive;
        if s.channels[r] == [] {
          WaitingIsServed(run, s, r);
          step := SendDirectly(r);
        }
      }
    }
  }

  // ----- every run ends -----

  /** Steps that the tests from a on can still take on behalf of sender r. */
  function FutureWork(tests: seq<seq<seq<TestResult>>>, r: nat, a: nat): nat
    requires forall t | 0 <= t < |tests| :: r < |tests[t]|
    decreases |tests| - a
  {
    if a >= |tests| then 0 else 1 + 2 * FIELDS * |tests[a][r]| + FutureWork(tests, r, a + 1)
  }

  ghost function SenderWork(run: Run, s: State, r: nat): nat
    requires IsRun(run) && HasShape(run, s) && r < run.size
  {
    2 * |s.senders[r].toSend| + |s.channels[r]| + FutureWork(run.tests, r, s.senders[r].test)
  }

  ghost function AllSenderWork(run: Run, s: State): (work: seq<nat>)
    requires IsRun(run) && HasShape(run, s)
    ensures |work| == run.size
  {
    seq(run.size, r requires 0 <= r < run.size => SenderWork(run, s, r))
  }

  ghost function CollectorWork(run: Run, s: State): int {
    (|run.tests| - |s.reports|) * (run.size + 2) - (if s.phase.Receiving? then 1 + s.phase.rank else 0)
  }

  /** How many steps are left at most. */
  ghost function Remaining(run: Run, s: State): int
    requires IsRun(run) && HasShape(run, s)
  {
    Sum(AllSenderWork(run, s)) + CollectorWork(run, s)
  }

  lemma {:induction false} SumOfUpdate(s: seq<nat>, i: nat, x: nat)
    requires i < |s|
    ensures Sum(s[i := x]) == Sum(s) - s[i] + x
  {
    var last, s' := |s| - 1, s[i := x];
    if i < last {
      assert s'[..last] == s[..last][i := x];
      SumOfUpdate(s[..last], i, x);
    } else {
      assert s'[..last] == s[..last];
    }
  }

  /** A step of one sender costs work. */
  lemma SenderStepCosts(run: Run, s: State, s': State, r: nat)
    requires IsRun(run) && HasShape(run, s) && HasShape(run, s') && r < run.size
    requires forall q: nat | q < run.size && q != r :: s'.senders[q] == s.senders[q] && s'.channels[q] == s.channels[q]
    requires SenderWork(run, s', r) < SenderWork(run, s, r) && CollectorWork(run, s') == CollectorWork(run, s)
    ensures Remaining(run, s') < Remaining(run, s)
  {
    assert AllSenderWork(run, s') == AllSenderWork(run, s)[r := SenderWork(run, s', r)];
    SumOfUpdate(AllSenderWork(run, s), r, SenderWork(run, s', r));
  }

  lemma CollectorStepCosts(run: Run, s: State, s': State)
    requires IsRun(run) && HasShape(run, s) && HasShape(run, s')
    requires s'.senders == s.senders && s'.channels == s.channels
    requires CollectorWork(run, s') < CollectorWork(run, s)
    ensures Remaining(run, s') < Remaining(run, s)
  {
    assert AllSenderWork(run, s') == AllSenderWork(run, s);
  }

  lemma StepCosts(run: Run, s: State, step: Step)
    requires IsRun(run) && Invariant(run, s) && IsEnabled(run, s, step)
    ensures HasShape(run, Apply(run, s, step)) && Remaining(run, Apply(run, s, step)) < Remaining(run, s)
  {
    StepKeepsInvariant(run, s, step);
    var s' := Apply(run, s, step);
    match step
    case Contribute(r) => SenderStepCosts(run, s, s', r);
    case SendBuffered(r) => SenderStepCosts(run, s, s', r);
    case SendDirectly(r) => SenderStepCosts(run, s, s', r);
    case Receive => SenderStepCosts(run, s, s', s.phase.rank);
    case Gather => CollectorStepCosts(run, s, s');
    case NextRank => CollectorStepCosts(run, s, s');
    case FinishTest =>
      OneFewer(|run.tests| - |s.reports|, run.size + 2);
      CollectorStepCosts(run, s, s');
  }

  lemma OneFewer(n: int, d: int)
    ensures (n - 1) * d == n * d - d
  {}

  lemma RemainingIsNatural(run: Run, s: State)
    requires IsRun(run) && Invariant(run, s)
    ensures Remaining(run, s) >= 0
  {
    AtLeastOne(|run.tests| - |s.reports|, run.size + 2);
  }

  lemma AtLeastOne(n: int, d: nat)
    ensures n >= 0 ==> n * d >= 0
    ensures n >= 1 ==> n * d >= d
  {}

  /** No interleaving goes on for ever: together with NoDeadlock, all of them end with everything delivered. */
  lemma {:induction false} TracesAreBounded(run: Run, states: seq<State>, steps: seq<Step>)
    requires IsRun(run) && IsTrace(run, states, steps)
    ensures HasShape(run, states[|steps|])
    ensures 0 <= Remaining(run, states[|steps|]) <= Remaining(run, Initial(run)) - |steps|
    decreases |steps|
  {
    TraceKeepsInvariant(run, states, steps, |steps|);
    RemainingIsNatural(run, states[|steps|]);
    if |steps| > 0 {
      var n := |steps| - 1;
      assert IsTrace(run, states[..n + 1], steps[..n]);
      TracesAreBounded(run, states[..n + 1], steps[..n]);
      TraceKeepsInvariant(run, states, steps, n);
      StepCosts(run, states[n], steps[n]);
    }
  }
}
