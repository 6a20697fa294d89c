/** Putting a translation response back together. The request itself is a
    network call; only its parsed outcome is modelled: None when the call,
    the body or its shape fails, otherwise the response's list of segments. */
module Translation {
  import opened Wrappers

  /** A segment of the response; its first element is the translated fragment. */
  type Segment = seq<string>

  /** The fragment a segment contributes: `item[0]`, which `join` turns into
      the empty text when the segment is empty. */
  function Fragment(segment: Segment): string {
    if |segment| == 0 then "" else segment[0]
  }

  /** `segments.map(item => item[0]).join('')`. */
  function JoinFragments(segments: seq<Segment>): (r: string)
    ensures |segments| == 0 ==> r == ""
    ensures |segments| > 0 ==> Fragment(segments[0]) <= r
  {
    if |segments| == 0 then ""
    else Fragment(segments[0]) + JoinFragments(segments[1..])
  }

  /** The text to narrate: the joined fragments of a well-formed response,
      or the original text unchanged when translation failed. */
  function Translated(response: Option<seq<Segment>>, text: string): (r: string)
    ensures response.None? ==> r == text
    ensures response.Some? ==> r == JoinFragments(response.value) && |r| == TotalLength(response.value)
  {
    match response
    case None => text
    case Some(segments) =>
      JoinLength(segments);
      JoinFragments(segments)
  }

  /** Joining distributes over splitting the segment list. */
  lemma {:induction false} JoinAppend(a: seq<Segment>, b: seq<Segment>)
    ensures JoinFragments(a + b) == JoinFragments(a) + JoinFragments(b)
    decreases |a|
  {
    if |a| > 0 {
      assert (a + b)[1..] == a[1..] + b;
      JoinAppend(a[1..], b);
    } else {
      assert a + b == b;
    }
  }

  /** Each fragment appears, in order, right after the fragments of the segments before it. */
  lemma FragmentInPlace(segments: seq<Segment>, i: int)
    requires 0 <= i < |segments|
    ensures var r := JoinFragments(segments);
            var at := |JoinFragments(segments[..i])|;
            at + |Fragment(segments[i])| <= |r| && r[at..at + |Fragment(segments[i])|] == Fragment(segments[i])
  {
    assert segments == segments[..i] + segments[i..];
    JoinAppend(segments[..i], segments[i..]);
  }

  /** The joined text is exactly as long as its fragments together. */
  function TotalLength(segments: seq<Segment>): nat {
    if |segments| == 0 then 0 else |Fragment(segments[0])| + TotalLength(segments[1..])
  }

  lemma {:induction false} JoinLength(segments: seq<Segment>)
    ensures |JoinFragments(segments)| == TotalLength(segments)
    decreases |segments|
  {
    if |segments| > 0 {
      JoinLength(segments[1..]);
    }
  }
}
