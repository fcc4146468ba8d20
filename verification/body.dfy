/**
 * The responder's one-shot body (loader/src/body.rs): a single in-memory
 * slice handed out as one data frame, after which the body is empty. The
 * `Pin`/`Context`/`Poll` machinery is reduced to the remaining-data state.
 */
module OneShotBody {
  import opened Wrappers
  import opened Bytes
  import opened Http
  import opened Seqs

  /** The remaining data; an empty slice is never stored (it is `None` instead). */
  datatype Body = Body(data: Option<seq<byte>>)

  predicate Valid(b: Body)
  {
    b.data != Some([])
  }

  /** `Body::new`. */
  function New(data: seq<byte>): (b: Body)
    ensures Valid(b)
    ensures Data(b) == data
    ensures b.data.None? <==> |data| == 0
  {
    if |data| > 0 then Body(Some(data)) else Body(None)
  }

  /** `Body::empty`. */
  function Empty(): (b: Body)
    ensures Valid(b) && Data(b) == []
  {
    Body(None)
  }

  /** `data()`: the remaining data, or an empty slice when nothing remains. */
  function Data(b: Body): (r: seq<byte>)
    ensures b.data.Some? ==> r == b.data.value
    ensures Valid(b) ==> (|r| == 0 <==> b.data.None?)
  {
    b.data.GetOr([])
  }

  /** What one `poll_frame` yields, and the body after it. */
  datatype Polled = Polled(frame: Option<seq<byte>>, after: Body)

  /** `poll_frame`: takes the stored data out as one frame, or signals the end. */
  function PollFrame(b: Body): (r: Polled)
    requires Valid(b)
    ensures r.after == Empty()
    ensures r.frame.Some? <==> |Data(b)| > 0
    ensures r.frame.Some? ==> r.frame.value == Data(b) && |r.frame.value| > 0
  {
    var taken := b.data;
    Polled(taken, Body(None))
  }

  /** `is_end_stream`. */
  function IsEndStream(b: Body): (r: bool)
    requires Valid(b)
    ensures r <==> |Data(b)| == 0
  {
    b.data.None?
  }

  /** `size_hint`: exact, the remaining length. */
  function SizeHintOf(b: Body): (r: SizeHint)
    requires Valid(b)
    ensures r == ExactSize(|Data(b)|)
  {
    match b.data
    case Some(d) => ExactSize(|d|)
    case None => ExactSize(0)
  }

  /** The frames a consumer collects by polling until the end. */
  function Frames(b: Body): (frames: seq<seq<byte>>)
    requires Valid(b)
    decreases if b.data.Some? then 1 else 0
  {
    var polled := PollFrame(b);
    match polled.frame
    case None => []
    case Some(f) => [f] + Frames(polled.after)
  }

  /**
   * A new body delivers exactly its data, in at most one frame that is never
   * empty; afterwards every poll reports the end and `data()` is empty.
   * `New` of an empty slice is the same state as `Empty()`.
   */
  lemma DeliversDataOnce(data: seq<byte>)
    ensures Flatten(Frames(New(data))) == data
    ensures |Frames(New(data))| <= 1
    ensures forall k :: 0 <= k < |Frames(New(data))| ==> |Frames(New(data))[k]| > 0
    ensures |data| == 0 ==> New(data) == Empty() && Frames(New(data)) == []
    ensures var after := PollFrame(New(data)).after;
              PollFrame(after).frame.None? && IsEndStream(after) && Data(after) == []
  {
    var b := New(data);
    if |data| > 0 {
      assert Frames(b) == [data];
      assert Flatten([data]) == data + Flatten([]);
    }
  }
}
