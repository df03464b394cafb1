/**
 * The diagnostic send sequence: seven fixed frames on identifier 0x742, each
 * transmitted in index order. Every transmit is wrapped in an error check,
 * so the first failed transmit aborts and nothing after it is attempted.
 */
module Sequencer {

  import opened Frames

  /** The fixed request table `messages_to_send`. */
  const MessagesToSend: seq<Frame> := [
    Frame(0x742, false, false, 8, [0x02, 0x10, 0xC0, 0x00, 0x00, 0x00, 0x00, 0x00]),
    Frame(0x742, false, false, 8, [0x02, 0x21, 0x80, 0x00, 0x00, 0x00, 0x00, 0x00]),
    Frame(0x742, false, false, 8, [0x30, 0x00, 0x00, 0x00, 0x00, 0x00, 0x00, 0x00]),
    Frame(0x742, false, false, 8, [0x02, 0x21, 0x03, 0x00, 0x00, 0x00, 0x00, 0x00]),
    Frame(0x742, false, false, 8, [0x02, 0x21, 0x04, 0x00, 0x00, 0x00, 0x00, 0x00]),
    Frame(0x742, false, false, 8, [0x02, 0x21, 0x01, 0x00, 0x00, 0x00, 0x00, 0x00]),
    Frame(0x742, false, false, 8, [0x30, 0x00, 0x00, 0x00, 0x00, 0x00, 0x00, 0x00])
  ]

  /** What the driver's transmit call reports. */
  datatype TxResult = TxOk | TxFailed(err: ErrorCode)

  /** Either every frame went out, or the transmit at `index` failed with `err`. */
  datatype SendOutcome = AllSent | Aborted(index: nat, err: ErrorCode)

  /** The frames handed to the driver, in call order, and how the sequence ended. */
  datatype SendReport = SendReport(attempted: seq<Frame>, outcome: SendOutcome)

  /** Every frame of the table is an 8-byte frame on identifier 0x742. */
  predicate DiagnosticFrames(table: seq<Frame>)
  {
    forall f :: f in table ==> f.identifier == 0x742 && f.dlc == 8
  }

  lemma TableShape()
    ensures |MessagesToSend| == 7
    ensures DiagnosticFrames(MessagesToSend)
  {
  }

  /**
   * Transmitting `table` from index `i` on; `bus(k)` is what the driver
   * reports for the transmit of entry k.
   */
  function Send(table: seq<Frame>, bus: nat -> TxResult, i: nat): (r: SendReport)
    requires i <= |table|
    decreases |table| - i
    ensures i + |r.attempted| <= |table|
    ensures r.attempted == table[i..i + |r.attempted|]
    ensures r.outcome.AllSent? <==> forall k :: i <= k < |table| ==> bus(k).TxOk?
    ensures r.outcome.AllSent? ==> i + |r.attempted| == |table|
    ensures r.outcome.Aborted? ==>
      && r.outcome.index == i + |r.attempted| - 1
      && bus(r.outcome.index) == TxFailed(r.outcome.err)
      && forall k :: i <= k < r.outcome.index ==> bus(k).TxOk?
  {
    if i == |table| then
      SendReport([], AllSent)
    else
      match bus(i)
      case TxFailed(e) => SendReport([table[i]], Aborted(i, e))
      case TxOk =>
        var rest := Send(table, bus, i + 1);
        SendReport([table[i]] + rest.attempted, rest.outcome)
  }

  /** A successful transmit at `j` contributes its frame and hands over to the report from `j + 1`. */
  lemma SendStep(table: seq<Frame>, bus: nat -> TxResult, j: nat)
    requires j < |table| && bus(j).TxOk?
    ensures Send(table, bus, j) ==
      SendReport([table[j]] + Send(table, bus, j + 1).attempted, Send(table, bus, j + 1).outcome)
  {
  }

  lemma ConsSlice(table: seq<Frame>, j: nat, i: nat, tail: seq<Frame>)
    requires j < i <= |table|
    ensures [table[j]] + (table[j + 1..i] + tail) == table[j..i] + tail
  {
    assert table[j..i] == [table[j]] + table[j + 1..i];
  }

  /** Once transmits `j` to `i - 1` have succeeded, the report from `j` is those entries followed by the report from `i`. */
  lemma {:induction false} SendAfterSuccesses(table: seq<Frame>, bus: nat -> TxResult, j: nat, i: nat)
    requires j <= i <= |table|
    requires forall k :: j <= k < i ==> bus(k).TxOk?
    decreases i - j
    ensures Send(table, bus, j) ==
      SendReport(table[j..i] + Send(table, bus, i).attempted, Send(table, bus, i).outcome)
  {
    if j == i {
      assert table[j..i] == [];
    } else {
      SendAfterSuccesses(table, bus, j + 1, i);
      SendStep(table, bus, j);
      ConsSlice(table, j, i, Send(table, bus, i).attempted);
    }
  }

  /** The transmit loop over a table, stopping at the first failure. */
  method SendAll(table: seq<Frame>, bus: nat -> TxResult) returns (r: SendReport)
    ensures r == Send(table, bus, 0)
  {
    var attempted: seq<Frame> := [];
    var i := 0;
    while i < |table|
      invariant 0 <= i <= |table|
      invariant attempted == table[..i]
      invariant forall k :: 0 <= k < i ==> bus(k).TxOk?
    {
      attempted := attempted + [table[i]];
      var result := bus(i);
      if result.TxFailed? {
        SendAfterSuccesses(table, bus, 0, i);
        assert Send(table, bus, i) == SendReport([table[i]], Aborted(i, result.err));
        return SendReport(attempted, Aborted(i, result.err));
      }
      i := i + 1;
    }
    SendAfterSuccesses(table, bus, 0, i);
    assert attempted == table[0..i];
    r := SendReport(attempted, AllSent);
  }

  /** `send_twai_messages`: the diagnostic table sent in index order, stopping at the first failure. */
  method SendTwaiMessages(bus: nat -> TxResult) returns (r: SendReport)
    ensures r == Send(MessagesToSend, bus, 0)
    ensures |r.attempted| <= 7
    ensures forall f :: f in r.attempted ==> f.identifier == 0x742 && f.dlc == 8
  {
    TableShape();
    r := SendAll(MessagesToSend, bus);
  }

  /** When the third transmit fails, exactly two frames went out before it and the last four are never attempted. */
  lemma ThirdTransmitFails(bus: nat -> TxResult)
    requires bus(0).TxOk? && bus(1).TxOk? && bus(2).TxFailed?
    ensures Send(MessagesToSend, bus, 0).outcome == Aborted(2, bus(2).err)
    ensures Send(MessagesToSend, bus, 0).attempted == MessagesToSend[..3]
  {
    TableShape();
  }
}
