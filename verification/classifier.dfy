/**
 * The receive filter and status classifier of the receive task: a frame is
 * kept only when its identifier is 0x762 and its first two data bytes are
 * 0x23 0x00; a kept frame is labelled "Status 4" when its third byte is 0x88
 * and "Status 3" otherwise.
 */
module Classifier {

  import opened Wrappers
  import opened Frames

  /** The two status labels the firmware attaches to kept frames. */
  datatype Status = Status3 | Status4
  {
    function Label(): (s: string)
      ensures |s| == 8 && s[..7] == "Status "
      ensures Status4? <==> s == "Status 4"
      ensures Status3? <==> s == "Status 3"
    {
      match this
      case Status3 => "Status 3"
      case Status4 => "Status 4"
    }
  }

  /** A kept frame together with its label (`message_with_status_t`). */
  datatype Record = Record(frame: Frame, status: Status)

  /** The gate in front of the store: identifier and the first two data bytes. */
  predicate PassesFilter(f: Frame)
  {
    f.identifier == 0x762 && f.data[0] == 0x23 && f.data[1] == 0x00
  }

  function StatusOf(f: Frame): Status
  {
    if f.data[2] == 0x88 then Status4 else Status3
  }

  /** Decides what, if anything, a received frame contributes to the history. */
  function Classify(f: Frame): (r: Option<Record>)
    ensures r.Some? <==> f.identifier == 0x762 && f.data[0] == 0x23 && f.data[1] == 0x00
    ensures r.Some? ==> r.value.frame == f
    ensures r.Some? ==> (r.value.status.Label() == "Status 4" <==> f.data[2] == 0x88)
    ensures r.Some? ==> (r.value.status.Label() == "Status 3" <==> f.data[2] != 0x88)
  {
    if PassesFilter(f) then Some(Record(f, StatusOf(f))) else None
  }

  /** The filter looks at neither the extended nor the remote-request flag. */
  lemma ClassifyIgnoresFlags(f: Frame, extended: bool, remote: bool)
    ensures Classify(f.(extended := extended, remote := remote)).Some? <==> Classify(f).Some?
    ensures Classify(f).Some? ==>
      Classify(f.(extended := extended, remote := remote)).value.status == Classify(f).value.status
  {
  }

  /** Bytes beyond the third do not influence the decision or the label. */
  lemma ClassifyDependsOnFirstThreeBytes(f: Frame, g: Frame)
    requires f.identifier == g.identifier && f.data[..3] == g.data[..3]
    ensures Classify(f).Some? <==> Classify(g).Some?
    ensures Classify(f).Some? ==> Classify(f).value.status == Classify(g).value.status
  {
    assert f.data[0] == f.data[..3][0] && g.data[0] == g.data[..3][0];
    assert f.data[1] == f.data[..3][1] && g.data[1] == g.data[..3][1];
    assert f.data[2] == f.data[..3][2] && g.data[2] == g.data[..3][2];
  }

  /** Concrete decisions: a 0x88 status byte, another status byte, a foreign identifier, a wrong first byte. */
  lemma ClassifyExamples(rest: seq<byte>)
    requires |rest| == 5
    ensures Classify(Frame(0x762, false, false, 8, [0x23, 0x00, 0x88] + rest)) ==
      Some(Record(Frame(0x762, false, false, 8, [0x23, 0x00, 0x88] + rest), Status4))
    ensures Classify(Frame(0x762, false, false, 8, [0x23, 0x00, 0x05] + rest)) ==
      Some(Record(Frame(0x762, false, false, 8, [0x23, 0x00, 0x05] + rest), Status3))
    ensures Classify(Frame(0x123, false, false, 8, [0x23, 0x00, 0x88] + rest)) == None
    ensures Classify(Frame(0x762, false, false, 8, [0x01, 0x00, 0x88] + rest)) == None
  {
  }
}
