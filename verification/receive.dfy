/**
 * The receive task: each poll of the bus either yields a frame, times out, or
 * fails; only frames that pass the classifier reach the store. The endless
 * polling loop is modelled over a finite trace of poll results.
 */
module ReceiveLoop {

  import opened Wrappers
  import opened Frames
  import opened Classifier
  import opened History
  import opened MessageStore

  /** What one call of the driver's blocking receive returns. */
  datatype RxResult = Received(frame: Frame) | RxTimeout | RxFailed(err: ErrorCode)

  /** One iteration of the receive loop. */
  function Step(st: Store<Record>, rx: RxResult): (st': Store<Record>)
    requires st.Valid()
    ensures st'.Valid()
    ensures rx.Received? && rx.frame.identifier == 0x762 && rx.frame.data[0] == 0x23 && rx.frame.data[1] == 0x00 ==>
      st'.Contents() == Push(st.Contents(), Record(rx.frame, if rx.frame.data[2] == 0x88 then Status4 else Status3))
    ensures !(rx.Received? && rx.frame.identifier == 0x762 && rx.frame.data[0] == 0x23 && rx.frame.data[1] == 0x00) ==>
      st' == st
  {
    if rx.Received? then
      match Classify(rx.frame)
      case Some(rec) => Insert(st, rec)
      case None => st
    else
      st
  }

  /** The records a trace of poll results offers to the store, in arrival order. */
  function Accepted(rxs: seq<RxResult>): (rs: seq<Record>)
    ensures |rs| <= |rxs|
    ensures forall r :: r in rs ==> Classify(r.frame) == Some(r)
    ensures forall i :: 0 <= i < |rxs| && rxs[i].Received? && PassesFilter(rxs[i].frame) ==>
      Record(rxs[i].frame, if rxs[i].frame.data[2] == 0x88 then Status4 else Status3) in rs
  {
    if rxs == [] then []
    else
      var last := rxs[|rxs| - 1];
      var more := if last.Received? && Classify(last.frame).Some? then [Classify(last.frame).value] else [];
      Accepted(rxs[..|rxs| - 1]) + more
  }

  /** The store after running the loop over `rxs`. */
  function Run(st: Store<Record>, rxs: seq<RxResult>): (st': Store<Record>)
    requires st.Valid()
    ensures st'.Valid()
  {
    if rxs == [] then st else Step(Run(st, rxs[..|rxs| - 1]), rxs[|rxs| - 1])
  }

  /** Running the loop pushes exactly the accepted records, in arrival order, onto the history. */
  lemma {:induction false} RunPushesAccepted(st: Store<Record>, rxs: seq<RxResult>)
    requires st.Valid()
    ensures Run(st, rxs).Contents() == PushAll(st.Contents(), Accepted(rxs))
  {
    if rxs != [] {
      var init, last := rxs[..|rxs| - 1], rxs[|rxs| - 1];
      RunPushesAccepted(st, init);
      var acc := Accepted(init);
      if last.Received? && Classify(last.frame).Some? {
        var r := Classify(last.frame).value;
        assert Accepted(rxs) == acc + [r];
        assert (acc + [r])[..|acc|] == acc;
      } else {
        assert Accepted(rxs) == acc;
      }
    }
  }

  /** From an empty store, the store holds exactly the last min(20, n) accepted records, oldest first. */
  lemma {:induction false} RunIsWindowOfAccepted(filler: Record, rxs: seq<RxResult>)
    ensures Run(Empty(filler), rxs).Contents() == Window(Accepted(rxs))
  {
    RunPushesAccepted(Empty(filler), rxs);
    PushAllIsWindow(Accepted(rxs));
  }

  /** Every stored record is a frame that passed the filter, carrying the label the classifier gives it. */
  lemma StoredRecordsPassedFilter(filler: Record, rxs: seq<RxResult>)
    ensures forall r :: r in Run(Empty(filler), rxs).Contents() ==>
      && r.frame.identifier == 0x762 && r.frame.data[0] == 0x23 && r.frame.data[1] == 0x00
      && (r.status == Status4 <==> r.frame.data[2] == 0x88)
  {
    RunIsWindowOfAccepted(filler, rxs);
    forall r | r in Run(Empty(filler), rxs).Contents()
      ensures Classify(r.frame) == Some(r)
    {
      WindowMember(Accepted(rxs), r);
    }
  }

  /**
   * The receive task over a finite trace of poll results, storing through
   * the in-place array insertion.
   */
  method ReceiveTask(filler: Record, rxs: seq<RxResult>) returns (st: Store<Record>)
    ensures st.Valid()
    ensures st.Contents() == Window(Accepted(rxs))
  {
    st := Empty(filler);
    var i := 0;
    while i < |rxs|
      invariant 0 <= i <= |rxs|
      invariant st.Valid()
      invariant st.Contents() == Window(Accepted(rxs[..i]))
    {
      var rx := rxs[i];
      ghost var before := Accepted(rxs[..i]);
      AcceptedExtend(rxs, i);
      if rx.Received? {
        var kept := Classify(rx.frame);
        if kept.Some? {
          PushWindow(before, kept.value);
          st := InsertInPlace(st, kept.value);
        }
      }
      i := i + 1;
    }
    assert rxs[..i] == rxs;
  }

  /** Extending a trace by one poll result extends the accepted records by at most that frame's record. */
  lemma AcceptedExtend(rxs: seq<RxResult>, i: int)
    requires 0 <= i < |rxs|
    ensures rxs[i].Received? && Classify(rxs[i].frame).Some? ==>
      Accepted(rxs[..i + 1]) == Accepted(rxs[..i]) + [Classify(rxs[i].frame).value]
    ensures !(rxs[i].Received? && Classify(rxs[i].frame).Some?) ==>
      Accepted(rxs[..i + 1]) == Accepted(rxs[..i])
  {
    assert rxs[..i + 1][..i] == rxs[..i];
  }
}
