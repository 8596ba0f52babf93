/**
  The causal dot of src/server/crdt/dot.go: a `(replica id, sequence
  number)` pair, an immutable value compared field by field, used as a map
  key by the dot kernels.
 */
module Dots {
  import opened Util

  /** One update event: the replica that made it and that replica's counter. */
  datatype Dot<T> = Dot(id: T, seqNo: int)

  /** `NewDot`: no check is made on `seq` (zero and negative values are accepted). */
  function NewDot<T>(id: T, seqNo: int): (d: Dot<T>)
    ensures d.id == id && d.seqNo == seqNo
  {
    Dot(id, seqNo)
  }

  /** `String` for string replica ids: `Dot{id <id>, seq <seq>}`. */
  function String(d: Dot<string>): (s: string)
    ensures |s| >= 15 + |d.id| && s[..7] == "Dot{id " && s[|s| - 1] == '}'
    ensures s[7..7 + |d.id|] == d.id && s[7 + |d.id|..13 + |d.id|] == ", seq "
  {
    "Dot{id " + d.id + ", seq " + IntToDecimal(d.seqNo) + "}"
  }

  /**
    Reads a rendering back: the id is everything up to the last comma, since
    the decimal sequence number holds no comma. Not part of the source; it
    exists to show that the rendering loses nothing.
   */
  function ParseString(s: string): Option<Dot<string>>
  {
    if |s| < 8 || s[..7] != "Dot{id " || s[|s| - 1] != '}' then None
    else ParseFields(s[7..|s| - 1])
  }

  /** Reads `<id>, seq <seq>`, the text between the braces. */
  function ParseFields(body: string): Option<Dot<string>>
  {
    var comma := LastIndexOf(body, ',');
    if comma < 0 || |body| < comma + 6 || body[comma..comma + 6] != ", seq " then None
    else
      match ParseInt(body[comma + 6..])
      case None => None
      case Some(n) => Some(Dot(body[..comma], n))
  }

  /** The fields of a dot read back from their rendering. */
  lemma FieldsRoundTrip(id: string, seqNo: int)
    ensures ParseFields(id + ", seq " + IntToDecimal(seqNo)) == Some(Dot(id, seqNo))
  {
    var n := IntToDecimal(seqNo);
    var body := id + ", seq " + n;
    assert ',' !in " seq " + n by {
      assert forall k :: 0 <= k < |n| ==> n[k] != ',';
    }
    assert body == id + [','] + (" seq " + n);
    LastIndexOfSplit(id, ',', " seq " + n);
    assert body[|id|..|id| + 6] == ", seq " && body[|id| + 6..] == n && body[..|id|] == id;
    IntToDecimalParses(seqNo);
  }

  /** Distinct dots render differently: the rendering reads back to the dot. */
  lemma StringRoundTrip(d: Dot<string>)
    ensures ParseString(String(d)) == Some(d)
  {
    var body := d.id + ", seq " + IntToDecimal(d.seqNo);
    var s := String(d);
    assert s == "Dot{id " + body + "}";
    assert s[..7] == "Dot{id " && s[7..|s| - 1] == body;
    FieldsRoundTrip(d.id, d.seqNo);
  }
}
