/**
 * Length-prefixed fields, the framing both generations of the pack format
 * are built from: a fixed-width little-endian length followed by that many
 * bytes. Encoding stops at the first field whose length does not fit its
 * prefix, after the earlier fields have already been written; decoding
 * distinguishes a missing prefix from missing data.
 */
module Framing {
  import opened Wrappers
  import opened Bytes

  /** A field to be written with a `width`-byte length prefix. */
  datatype Field = Field(width: nat, data: seq<byte>)

  /** The field's length is representable in its prefix (`try_into` succeeds). */
  predicate Fits(f: Field)
  {
    |f.data| < Pow256(f.width)
  }

  predicate AllFit(fields: seq<Field>)
  {
    forall i :: 0 <= i < |fields| ==> Fits(fields[i])
  }

  /** The bytes of one field: its length prefix, then its data. */
  function Frame(f: Field): (r: seq<byte>)
    requires Fits(f)
    ensures |r| == f.width + |f.data|
    ensures FromLittleEndian(r[..f.width]) == |f.data|
    ensures r[f.width..] == f.data
  {
    FromLittleEndianInverse(|f.data|, f.width);
    var r := LittleEndian(|f.data|, f.width) + f.data;
    assert r[..f.width] == LittleEndian(|f.data|, f.width);
    r
  }

  /** The frames of several fields, back to back. */
  function Frames(fields: seq<Field>): seq<byte>
    requires AllFit(fields)
  {
    if |fields| == 0 then [] else Frame(fields[0]) + Frames(fields[1..])
  }

  lemma FramesCons(f: Field, rest: seq<Field>)
    requires Fits(f) && AllFit(rest)
    ensures AllFit([f] + rest)
    ensures Frames([f] + rest) == Frame(f) + Frames(rest)
  {
    assert ([f] + rest)[1..] == rest;
  }

  /** Three fitting fields frame as their frames back to back. */
  lemma Frames3(a: Field, b: Field, c: Field)
    requires Fits(a) && Fits(b) && Fits(c)
    ensures AllFit([a, b, c]) && Frames([a, b, c]) == Frame(a) + Frame(b) + Frame(c)
  {
    FramesCons(c, []);
    assert [c] + [] == [c];
    FramesCons(b, [c]);
    assert [b] + [c] == [b, c];
    FramesCons(a, [b, c]);
    assert [a] + [b, c] == [a, b, c];
  }

  /** Five fitting fields frame as their frames back to back. */
  lemma Frames5(a: Field, b: Field, c: Field, e: Field, g: Field)
    requires Fits(a) && Fits(b) && Fits(c) && Fits(e) && Fits(g)
    ensures AllFit([a, b, c, e, g])
    ensures Frames([a, b, c, e, g]) == Frame(a) + Frame(b) + Frame(c) + Frame(e) + Frame(g)
  {
    Frames3(c, e, g);
    FramesCons(b, [c, e, g]);
    assert [b] + [c, e, g] == [b, c, e, g];
    FramesCons(a, [b, c, e, g]);
    assert [a] + [b, c, e, g] == [a, b, c, e, g];
  }

  /** Writing one more field appends its frame. */
  lemma {:induction false} FramesSnoc(fields: seq<Field>, f: Field)
    requires AllFit(fields) && Fits(f)
    ensures AllFit(fields + [f])
    ensures Frames(fields + [f]) == Frames(fields) + Frame(f)
  {
    if |fields| > 0 {
      assert (fields + [f])[1..] == fields[1..] + [f];
      FramesSnoc(fields[1..], f);
    }
  }

  /** Extending a prefix of fitting fields by the next field appends its frame. */
  lemma FramesPrefixStep(fields: seq<Field>, k: nat)
    requires k < |fields| && AllFit(fields[..k]) && Fits(fields[k])
    ensures AllFit(fields[..k + 1])
    ensures Frames(fields[..k + 1]) == Frames(fields[..k]) + Frame(fields[k])
  {
    assert fields[..k + 1] == fields[..k] + [fields[k]];
    FramesSnoc(fields[..k], fields[k]);
  }

  /** The first field that does not fit is at `k`. */
  predicate FirstUnfit(fields: seq<Field>, k: nat)
  {
    k < |fields| && AllFit(fields[..k]) && !Fits(fields[k])
  }

  /** There is at most one first field that does not fit. */
  lemma {:induction false} FirstUnfitUnique(fields: seq<Field>, k: nat, k': nat)
    requires FirstUnfit(fields, k) && FirstUnfit(fields, k')
    ensures k == k'
  {
  }

  /** What a serialiser leaves behind: the bytes written, and the error that stopped it, if any. */
  datatype Written<E> = Written(bytes: seq<byte>, error: Option<E>)

  /**
   * Writing fields in order until one does not fit: the error names the
   * index of that field, and every earlier field has been written whole.
   */
  function Encode(fields: seq<Field>): (r: Written<nat>)
    ensures r.error.None? <==> AllFit(fields)
    ensures r.error.None? ==> r.bytes == Frames(fields)
    ensures r.error.Some? ==>
              var k := r.error.value;
              && k < |fields|
              && !Fits(fields[k])
              && AllFit(fields[..k])
              && r.bytes == Frames(fields[..k])
  {
    if |fields| == 0 then Written([], None)
    else if !Fits(fields[0]) then
      assert AllFit(fields[..0]);
      Written([], Some(0))
    else
      var rest := Encode(fields[1..]);
      match rest.error
      case None => Written(Frame(fields[0]) + rest.bytes, None)
      case Some(k) =>
        assert fields[..k + 1][1..] == fields[1..][..k];
        assert forall i :: 1 <= i < k + 1 ==> fields[i] == fields[1..][i - 1];
        Written(Frame(fields[0]) + rest.bytes, Some(k + 1))
  }

  /** Why a length-prefixed read failed. */
  datatype ReadError =
    /** "Premature length termination": fewer bytes than the prefix needs. */
    | PrematureLength
    /** "Premature data termination": fewer bytes than the prefix announces. */
    | PrematureData

  /** A successful read: the field's data and the input after it. */
  datatype Read = Read(data: seq<byte>, rest: seq<byte>)

  /**
   * `read_u8`, `read_u16`, `read_u32` for `width` 1, 2, 4: the input must
   * start with a whole frame, which is split off.
   */
  function ReadPrefixed(input: seq<byte>, width: nat): (r: Result<Read, ReadError>)
    ensures r == Failure(PrematureLength) <==> |input| < width
    ensures r == Failure(PrematureData) <==>
              |input| >= width && |input| - width < FromLittleEndian(input[..width])
    ensures r.Success? ==>
              && Fits(Field(width, r.value.data))
              && input == Frame(Field(width, r.value.data)) + r.value.rest
  {
    if |input| < width then Failure(PrematureLength)
    else
      var length := FromLittleEndian(input[..width]);
      if |input| - width < length then Failure(PrematureData)
      else
        var data := input[width..width + length];
        LittleEndianInverse(input[..width]);
        assert input == input[..width] + data + input[width + length..];
        Success(Read(data, input[width + length..]))
  }

  /** Reading a frame gives back its field's data and leaves what followed it. */
  lemma ReadFrame(f: Field, tail: seq<byte>)
    requires Fits(f)
    ensures ReadPrefixed(Frame(f) + tail, f.width) == Success(Read(f.data, tail))
  {
    var input := Frame(f) + tail;
    assert input[..f.width] == Frame(f)[..f.width];
    assert input[f.width..f.width + |f.data|] == f.data;
    assert input[f.width + |f.data|..] == tail;
  }
}
