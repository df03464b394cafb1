/**
 * The per-entry part of the history page: one list item per stored record,
 * oldest first, each showing the record's meaningful data bytes as two
 * upper-case hex digits and a space apiece, then its status label. A parser
 * for the same text is the rendering's inverse: it recovers, item by item,
 * exactly the bytes and labels that were rendered.
 */
module Render {

  import opened Wrappers
  import opened Frames
  import opened Classifier
  import opened MessageStore
  import History

  /** One upper-case hexadecimal digit. */
  function HexDigit(n: int): (c: char)
    requires 0 <= n < 16
    ensures '0' <= c <= '9' || 'A' <= c <= 'F'
  {
    if n < 10 then ('0' as int + n) as char else ('A' as int + n - 10) as char
  }

  /** The value of an upper-case hexadecimal digit, if `c` is one. */
  function DigitValue(c: char): (v: Option<int>)
    ensures v.Some? ==> 0 <= v.value < 16 && HexDigit(v.value) == c
    ensures v.None? ==> !('0' <= c <= '9' || 'A' <= c <= 'F')
  {
    if '0' <= c <= '9' then Some(c as int - '0' as int)
    else if 'A' <= c <= 'F' then Some(c as int - 'A' as int + 10)
    else None
  }

  /** `%02X` applied to one byte. */
  function HexByte(b: byte): (s: string)
    ensures |s| == 2
    ensures forall i :: 0 <= i < 2 ==> '0' <= s[i] <= '9' || 'A' <= s[i] <= 'F'
  {
    [HexDigit(b as int / 16), HexDigit(b as int % 16)]
  }

  function ParseHexByte(hi: char, lo: char): Option<byte>
  {
    match (DigitValue(hi), DigitValue(lo))
    case (Some(h), Some(l)) => Some((h * 16 + l) as byte)
    case _ => None
  }

  /** Two hex digits written for a byte read back as that byte. */
  lemma HexByteRoundTrip(b: byte)
    ensures ParseHexByte(HexByte(b)[0], HexByte(b)[1]) == Some(b)
  {
    var h, l := b as int / 16, b as int % 16;
    assert DigitValue(HexDigit(h)) == Some(h);
    assert DigitValue(HexDigit(l)) == Some(l);
  }

  /** The data bytes of one item: every byte as `%02X ` in order. */
  function DataField(bs: seq<byte>): (s: string)
    ensures |s| == 3 * |bs|
  {
    if bs == [] then "" else HexByte(bs[0]) + " " + DataField(bs[1..])
  }

  /** Byte `i` occupies characters 3i..3i+2 of the data field: two hex digits and a space. */
  lemma {:induction false} DataFieldLayout(bs: seq<byte>, i: int)
    requires 0 <= i < |bs|
    ensures DataField(bs)[3 * i..3 * i + 3] == HexByte(bs[i]) + " "
  {
    var tail := DataField(bs[1..]);
    assert DataField(bs) == HexByte(bs[0]) + " " + tail;
    if i > 0 {
      DataFieldLayout(bs[1..], i - 1);
      assert DataField(bs)[3 * i..3 * i + 3] == tail[3 * (i - 1)..3 * (i - 1) + 3];
    }
  }

  const ItemHead: string := "<li>ID: 0x762, Data: "
  const StatusSep: string := ", Status: "
  const ItemTail: string := "</li>"

  /**
   * One list item for a stored record: the fixed head, `%02X ` for each
   * meaningful byte, the separator, the status label and the closing tag.
   */
  function Item(r: Record): (s: string)
    ensures |s| == 44 + 3 * r.frame.dlc
    ensures |s| <= 68
    ensures s[..|ItemHead|] == ItemHead
    ensures s[|s| - |ItemTail|..] == ItemTail
  {
    ItemHead + DataField(r.frame.Shown()) + StatusSep + r.status.Label() + ItemTail
  }

  /** The list items for `rs`, in order: the first record's item, then the rest. */
  function Items(rs: seq<Record>): (s: string)
    ensures |s| <= 68 * |rs|
    ensures rs == [] ==> s == ""
    ensures rs != [] ==> |Item(rs[0])| <= |s| && s[..|Item(rs[0])|] == Item(rs[0])
  {
    if rs == [] then "" else Item(rs[0]) + Items(rs[1..])
  }

  /** What a reader of the page can see of one record. */
  datatype Entry = Entry(bytes: seq<byte>, status: Status)

  function View(r: Record): Entry
  {
    Entry(r.frame.Shown(), r.status)
  }

  function Views(rs: seq<Record>): (es: seq<Entry>)
    ensures |es| == |rs|
    ensures forall i :: 0 <= i < |rs| ==> es[i] == View(rs[i])
  {
    seq(|rs|, i requires 0 <= i < |rs| => View(rs[i]))
  }

  predicate StartsWith(s: string, p: string)
  {
    |p| <= |s| && s[..|p|] == p
  }

  /** Reads `%02X ` groups up to the comma that follows the data bytes. */
  function ParseData(s: string): (r: Option<(seq<byte>, string)>)
    ensures r.Some? ==> |r.value.1| <= |s|
    decreases |s|
  {
    if |s| >= 1 && s[0] == ',' then Some(([], s))
    else if |s| >= 3 && s[2] == ' ' then
      match ParseHexByte(s[0], s[1])
      case None => None
      case Some(b) =>
        match ParseData(s[3..])
        case None => None
        case Some((bs, rest)) => Some(([b] + bs, rest))
    else None
  }

  function ParseStatus(s: string): Option<(Status, string)>
  {
    if StartsWith(s, Status3.Label()) then Some((Status3, s[8..]))
    else if StartsWith(s, Status4.Label()) then Some((Status4, s[8..]))
    else None
  }

  /** Reads one list item off the front of `s`. */
  function ParseItem(s: string): (r: Option<(Entry, string)>)
    ensures r.Some? ==> |r.value.1| < |s|
  {
    if !StartsWith(s, ItemHead) then None
    else
      match ParseData(s[|ItemHead|..])
      case None => None
      case Some((bs, rest)) =>
        if !StartsWith(rest, StatusSep) then None
        else
          match ParseStatus(rest[|StatusSep|..])
          case None => None
          case Some((status, rest')) =>
            if StartsWith(rest', ItemTail) then Some((Entry(bs, status), rest'[|ItemTail|..])) else None
  }

  /** Reads a whole run of list items. */
  function ParseItems(s: string): Option<seq<Entry>>
    decreases |s|
  {
    if s == [] then Some([])
    else
      match ParseItem(s)
      case None => None
      case Some((e, rest)) =>
        match ParseItems(rest)
        case None => None
        case Some(es) => Some([e] + es)
  }

  /** One `%02X ` group in front of `t` is read as its byte, then reading carries on with `t`. */
  lemma ParseDataGroup(b: byte, t: string)
    ensures ParseData(HexByte(b) + " " + t) ==
      match ParseData(t)
      case None => None
      case Some((bs, rest)) => Some(([b] + bs, rest))
  {
    var s := HexByte(b) + " " + t;
    assert s[0] == HexByte(b)[0] && s[1] == HexByte(b)[1] && s[2] == ' ';
    assert s[3..] == t;
    HexByteRoundTrip(b);
  }

  /** The data field, followed by the comma that ends it, reads back as the bytes written. */
  lemma {:induction false} DataFieldRoundTrip(bs: seq<byte>, rest: string)
    requires |rest| > 0 && rest[0] == ','
    ensures ParseData(DataField(bs) + rest) == Some((bs, rest))
  {
    if bs == [] {
      assert DataField(bs) + rest == rest;
    } else {
      var t := DataField(bs[1..]) + rest;
      assert DataField(bs) + rest == HexByte(bs[0]) + " " + t;
      ParseDataGroup(bs[0], t);
      DataFieldRoundTrip(bs[1..], rest);
      assert [bs[0]] + bs[1..] == bs;
    }
  }

  lemma Regroup(a: string, b: string, c: string, d: string, e: string, f: string)
    ensures a + b + c + d + e + f == a + (b + (c + (d + (e + f))))
  {
    assert a + b + c + d + e + f == a + b + c + d + (e + f);
    assert a + b + c + d + (e + f) == a + b + c + (d + (e + f));
    assert a + b + c + (d + (e + f)) == a + b + (c + (d + (e + f)));
  }

  lemma SplitAfter(p: string, t: string)
    ensures StartsWith(p + t, p)
    ensures (p + t)[|p|..] == t
  {
  }

  lemma ParseStatusLabel(status: Status, t: string)
    ensures ParseStatus(status.Label() + t) == Some((status, t))
  {
    SplitAfter(status.Label(), t);
  }

  /** An item, whatever follows it, reads back as that record's bytes and label. */
  lemma ItemRoundTrip(r: Record, rest: string)
    ensures ParseItem(Item(r) + rest) == Some((View(r), rest))
  {
    var afterStatus := ItemTail + rest;
    SplitAfter(ItemTail, rest);
    var afterSep := r.status.Label() + afterStatus;
    ParseStatusLabel(r.status, afterStatus);
    var afterData := StatusSep + afterSep;
    SplitAfter(StatusSep, afterSep);
    var afterHead := DataField(r.frame.Shown()) + afterData;
    DataFieldRoundTrip(r.frame.Shown(), afterData);
    SplitAfter(ItemHead, afterHead);
    Regroup(ItemHead, DataField(r.frame.Shown()), StatusSep, r.status.Label(), ItemTail, rest);
  }

  /** The rendered list reads back as exactly the records' bytes and labels, in order. */
  lemma {:induction false} ItemsRoundTrip(rs: seq<Record>)
    ensures ParseItems(Items(rs)) == Some(Views(rs))
  {
    if rs != [] {
      ItemRoundTrip(rs[0], Items(rs[1..]));
      ItemsRoundTrip(rs[1..]);
      assert Views(rs) == [View(rs[0])] + Views(rs[1..]);
    }
  }

  lemma {:induction false} DataFieldSnoc(bs: seq<byte>, b: byte)
    ensures DataField(bs + [b]) == DataField(bs) + HexByte(b) + " "
  {
    if bs != [] {
      assert (bs + [b])[1..] == bs[1..] + [b];
      DataFieldSnoc(bs[1..], b);
    }
  }

  lemma {:induction false} ItemsSnoc(rs: seq<Record>, r: Record)
    ensures Items(rs + [r]) == Items(rs) + Item(r)
  {
    if rs != [] {
      assert (rs + [r])[1..] == rs[1..] + [r];
      ItemsSnoc(rs[1..], r);
    }
  }

  lemma AppendInParts(out: string, a: string, b: string, c: string, d: string, e: string)
    ensures out + a + b + c + d + e == out + (a + b + c + d + e)
  {
    assert out + a + b == out + (a + b);
    assert out + (a + b) + c == out + (a + b + c);
    assert out + (a + b + c) + d == out + (a + b + c + d);
  }

  /** The inner loop: each meaningful byte of one record as `%02X `. */
  method RenderData(f: Frame) returns (s: string)
    ensures s == DataField(f.Shown())
    ensures |s| == 3 * f.dlc
  {
    s := "";
    var j := 0;
    while j < f.dlc
      invariant 0 <= j <= f.dlc
      invariant s == DataField(f.data[..j])
    {
      DataFieldSnoc(f.data[..j], f.data[j]);
      History.TakeOneMore(f.data, j);
      s := s + HexByte(f.data[j]) + " ";
      j := j + 1;
    }
  }

  /** One pass of the outer loop: the item head, the data bytes and the label, appended to `out`. */
  method RenderItem(out: string, rec: Record) returns (out': string)
    ensures out' == out + Item(rec)
    ensures |out'| == |out| + 44 + 3 * rec.frame.dlc
  {
    out' := out + ItemHead;
    var field := RenderData(rec.frame);
    out' := out' + field;
    out' := out' + StatusSep + rec.status.Label() + ItemTail;
    AppendInParts(out, ItemHead, field, StatusSep, rec.status.Label(), ItemTail);
  }

  /**
   * The rendering loop of the page handler: for each stored record, in index
   * order, the item head, then each meaningful data byte, then the label.
   */
  method RenderHistory(st: Store<Record>) returns (out: string)
    requires st.Valid()
    ensures out == Items(st.Contents())
    ensures |out| <= 68 * History.Capacity
  {
    out := "";
    var i := 0;
    while i < st.count
      invariant 0 <= i <= st.count
      invariant out == Items(st.slots[..i])
    {
      ghost var before := st.slots[..i];
      out := RenderItem(out, st.slots[i]);
      ItemsSnoc(before, st.slots[i]);
      History.TakeOneMore(st.slots, i);
      i := i + 1;
    }
  }
}
