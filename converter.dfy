/** The dispatcher (`convertImage`), which settles a worker's reply into a resolved
    or rejected outcome, and the batch orchestrator (`batchConvert`), which converts
    files one at a time, keeps the successes and reports progress after every file. */
module Converter {
  import opened Common
  import ConversionWorker

  /** What the dispatcher hears from its worker: a posted message, or the
      worker's own `error` event (for instance, its script failed to load). */
  datatype WorkerEvent = Message(reply: ConversionWorker.Reply) | WorkerFailure(message: string)

  // ---------------------------------------------------------------------------
  // convertImage

  /** `convertImage`'s settlement as written: a message rejects only when its
      `error` field is truthy, so an error reply with an empty message resolves. */
  function SettleAsWritten(event: WorkerEvent): (r: Outcome<ConversionWorker.Reply>)
    ensures event.WorkerFailure? ==> r == Failure("Worker error: " + event.message)
    ensures event.Message? && event.reply.ErrorReply? && event.reply.message != ""
            ==> r == Failure(event.reply.message)
    ensures r.Success? <==> event.Message? && (event.reply.Converted? || event.reply.message == "")
    ensures r.Success? ==> r.value == event.reply
  {
    match event
    case WorkerFailure(m) => Failure("Worker error: " + m)
    case Message(reply) =>
      if reply.ErrorReply? && reply.message != "" then Failure(reply.message) else Success(reply)
  }

  /** An error reply whose message is empty is resolved as if it were a result. */
  lemma EmptyErrorMessageResolves()
    ensures SettleAsWritten(Message(ConversionWorker.ErrorReply(""))).Success?
  {
  }

  /** `convertImage`'s settlement as intended: every error reply rejects with its
      message, every converted reply resolves with the data unchanged. */
  function Settle(event: WorkerEvent): (r: Outcome<ConversionWorker.Reply>)
    ensures r.Success? <==> event.Message? && event.reply.Converted?
    ensures r.Success? ==> r.value == event.reply
    ensures event.WorkerFailure? ==> r == Failure("Worker error: " + event.message)
    ensures event.Message? && event.reply.ErrorReply? ==> r == Failure(event.reply.message)
  {
    match event
    case WorkerFailure(m) => Failure("Worker error: " + m)
    case Message(reply) => if reply.ErrorReply? then Failure(reply.message) else Success(reply)
  }

  /** The two settlements differ only on an error reply with an empty message. */
  lemma SettlementsAgreeOnNonEmptyMessages(event: WorkerEvent)
    ensures SettleAsWritten(event) == Settle(event)
        <==> !(event.Message? && event.reply.ErrorReply? && event.reply.message == "")
  {
  }

  // ---------------------------------------------------------------------------
  // batchConvert

  /** One `onProgress(percent, completed, total)` call; the percent is derived. */
  datatype Progress = Progress(completed: nat, total: nat)

  /** `completed / total * 100` */
  function Percent(p: Progress): (r: real)
    requires p.total > 0
    ensures p.completed <= p.total ==> 0.0 <= r <= 100.0
    ensures r == 100.0 <==> p.completed == p.total
  {
    var c, t := p.completed as real, p.total as real;
    QuotientAgainstOne(c, t);
    c / t * 100.0
  }

  /** A non-negative quotient compared with 1. */
  lemma QuotientAgainstOne(c: real, t: real)
    requires 0.0 <= c && 0.0 < t
    ensures 0.0 <= c / t
    ensures c < t ==> c / t < 1.0
    ensures c == t ==> c / t == 1.0
    ensures c > t ==> c / t > 1.0
  {
    assert t / t == 1.0;
    if c < t {
      assert c / t < t / t;
    } else if c > t {
      assert t / t < c / t;
    }
  }

  /** The values of the successful outcomes, in order. */
  function Successes<R>(outcomes: seq<Outcome<R>>): (r: seq<R>)
    ensures |r| <= |outcomes|
  {
    if outcomes == [] then []
    else
      var last := outcomes[|outcomes| - 1];
      Successes(outcomes[..|outcomes| - 1]) + (if last.Success? then [last.value] else [])
  }

  /** Appending one outcome appends its value when it succeeded. */
  lemma SuccessesSnoc<R>(outcomes: seq<Outcome<R>>, o: Outcome<R>)
    ensures Successes(outcomes + [o]) == Successes(outcomes) + (if o.Success? then [o.value] else [])
  {
    assert (outcomes + [o])[..|outcomes|] == outcomes;
  }

  /** What one more file adds to the batch's dispatch record, results and progress calls. */
  lemma BatchStep<F, R>(files: seq<F>, convert: F -> Outcome<R>, i: nat)
    requires i < |files|
    ensures files[..i + 1] == files[..i] + [files[i]]
    ensures Successes(Outcomes(files[..i + 1], convert))
         == Successes(Outcomes(files[..i], convert))
            + (if convert(files[i]).Success? then [convert(files[i]).value] else [])
    ensures ProgressCalls(i + 1, |files|) == ProgressCalls(i, |files|) + [Progress(i + 1, |files|)]
  {
    assert Outcomes(files[..i + 1], convert) == Outcomes(files[..i], convert) + [convert(files[i])];
    SuccessesSnoc(Outcomes(files[..i], convert), convert(files[i]));
  }

  /** The outcome of converting each file. */
  function Outcomes<F, R>(files: seq<F>, convert: F -> Outcome<R>): (r: seq<Outcome<R>>)
    ensures |r| == |files| && forall i :: 0 <= i < |files| ==> r[i] == convert(files[i])
  {
    seq(|files|, i requires 0 <= i < |files| => convert(files[i]))
  }

  /** The progress calls of a batch of `total` files: completed runs 1..total. */
  function ProgressCalls(done: nat, total: nat): (r: seq<Progress>)
    requires done <= total
    ensures |r| == done && forall i :: 0 <= i < done ==> r[i] == Progress(i + 1, total)
  {
    seq(done, i requires 0 <= i < done => Progress(i + 1, total))
  }

  /** `batchConvert`: each file is handed to `convert` once, in order, one at a time.
      `dispatched` records the files in the order they were converted, `results`
      the resolved values, `progress` the calls made to `onProgress` (none when no
      callback is given) and `completed` the final counter. */
  method BatchConvert<F, R>(files: seq<F>, convert: F -> Outcome<R>, hasProgressCallback: bool)
    returns (results: seq<R>, progress: seq<Progress>, dispatched: seq<F>, completed: nat)
    ensures dispatched == files
    ensures results == Successes(Outcomes(files, convert))
    ensures completed == |files|
    ensures progress == if hasProgressCallback then ProgressCalls(|files|, |files|) else []
  {
    results, progress, dispatched, completed := [], [], [], 0;
    for i := 0 to |files|
      invariant dispatched == files[..i]
      invariant results == Successes(Outcomes(files[..i], convert))
      invariant completed == i
      invariant progress == if hasProgressCallback then ProgressCalls(i, |files|) else []
    {
      var file := files[i];
      dispatched := dispatched + [file];
      var outcome := convert(file);
      BatchStep(files, convert, i);
      match outcome {
        case Success(result) =>
          results := results + [result];
          completed := completed + 1;
          if hasProgressCallback {
            progress := progress + [Progress(completed, |files|)];
          }
        case Failure(_) =>
          completed := completed + 1;
          if hasProgressCallback {
            progress := progress + [Progress(completed, |files|)];
          }
      }
    }
    assert files[..|files|] == files;
  }

  // ---------------------------------------------------------------------------
  // Properties of a batch

  lemma {:induction false} SuccessesAppend<R>(a: seq<Outcome<R>>, b: seq<Outcome<R>>)
    ensures Successes(a + b) == Successes(a) + Successes(b)
    decreases |b|
  {
    if b == [] {
      assert a + b == a;
    } else {
      assert (a + b)[..|a + b| - 1] == a + b[..|b| - 1];
      SuccessesAppend(a, b[..|b| - 1]);
    }
  }

  /** A failing file contributes nothing and does not stop later files. */
  lemma FailureIsSkipped<R>(before: seq<Outcome<R>>, message: string, after: seq<Outcome<R>>)
    ensures Successes(before + [Failure(message)] + after) == Successes(before) + Successes(after)
  {
    var failed: seq<Outcome<R>> := [Failure(message)];
    assert Successes(failed) == [] by {
      assert failed[..0] == [];
    }
    SuccessesAppend(before, failed);
    SuccessesAppend(before + failed, after);
  }

  /** Every file that succeeds is in the results, at the position given by the
      number of successes before it; the results hold one entry per success. */
  lemma {:induction false} SuccessPosition<R>(outcomes: seq<Outcome<R>>, i: nat)
    requires i < |outcomes| && outcomes[i].Success?
    ensures |Successes(outcomes[..i])| < |Successes(outcomes)|
    ensures Successes(outcomes)[|Successes(outcomes[..i])|] == outcomes[i].value
  {
    assert outcomes == outcomes[..i] + [outcomes[i]] + outcomes[i + 1..];
    SuccessesAppend(outcomes[..i] + [outcomes[i]], outcomes[i + 1..]);
    var single := [outcomes[i]];
    SuccessesAppend(outcomes[..i], single);
    assert single[..0] == [];
  }

  /** Every result comes from a successful file; with no failure, there is one
      result per file. */
  lemma {:induction false} SuccessesAreResolvedValues<R>(outcomes: seq<Outcome<R>>)
    ensures forall r :: r in Successes(outcomes) ==> Success(r) in outcomes
    ensures (forall i :: 0 <= i < |outcomes| ==> outcomes[i].Success?)
            ==> |Successes(outcomes)| == |outcomes|
  {
    if outcomes != [] {
      var init := outcomes[..|outcomes| - 1];
      SuccessesAreResolvedValues(init);
      assert forall o :: o in init ==> o in outcomes;
    }
  }

  /** The number of successful outcomes, counted from the front. */
  function CountSucceeded<R>(outcomes: seq<Outcome<R>>): nat
  {
    if outcomes == [] then 0
    else (if outcomes[0].Success? then 1 else 0) + CountSucceeded(outcomes[1..])
  }

  /** There is exactly one result per successful file. */
  lemma {:induction false} SuccessesCountSucceeded<R>(outcomes: seq<Outcome<R>>)
    ensures |Successes(outcomes)| == CountSucceeded(outcomes)
    decreases |outcomes|
  {
    if outcomes != [] {
      var first := [outcomes[0]];
      assert outcomes == first + outcomes[1..];
      SuccessesAppend(first, outcomes[1..]);
      assert first[..0] == [];
      SuccessesCountSucceeded(outcomes[1..]);
    }
  }

  /** The progress calls count 1..n out of n, their percentages strictly increase,
      and the last one reports 100. */
  lemma ProgressReachesHundred(n: nat)
    requires n > 0
    ensures var calls := ProgressCalls(n, n);
            && calls[n - 1] == Progress(n, n)
            && Percent(calls[n - 1]) == 100.0
            && forall i, j :: 0 <= i < j < n ==> Percent(calls[i]) < Percent(calls[j])
  {
    var calls := ProgressCalls(n, n);
    assert n as real / n as real == 1.0;
    forall i, j | 0 <= i < j < n
      ensures Percent(calls[i]) < Percent(calls[j])
    {
      ScaledQuotientIncreases((i + 1) as real, (j + 1) as real, n as real);
    }
  }

  lemma ScaledQuotientIncreases(a: real, b: real, d: real)
    requires a < b && d > 0.0
    ensures a / d * 100.0 < b / d * 100.0
  {
    assert a / d < b / d;
  }

  /** A scenario check: three files, the second undecodable, give two results and
      progress 1/3, 2/3, 3/3. */
  method ThreeFilesOneCorrupt(a: SourceFile, b: SourceFile, c: SourceFile,
                              convert: SourceFile -> Outcome<ConversionWorker.Reply>)
    returns (results: seq<ConversionWorker.Reply>, progress: seq<Progress>)
    requires convert(a).Success? && convert(b).Failure? && convert(c).Success?
    ensures results == [convert(a).value, convert(c).value]
    ensures progress == [Progress(1, 3), Progress(2, 3), Progress(3, 3)]
  {
    var dispatched, completed;
    results, progress, dispatched, completed := BatchConvert([a, b, c], convert, true);
    assert Outcomes([a, b, c], convert) == [convert(a)] + [convert(b)] + [convert(c)];
    FailureIsSkipped([convert(a)], convert(b).message, [convert(c)]);
    assert completed == 3;
  }
}
