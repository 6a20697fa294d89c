/** Choosing the narration voice from the host's voice inventory. */
module Voices {
  import opened Wrappers
  import opened Sequences
  import opened Strings

  /** A voice the host offers: its language tag and display name. */
  datatype Voice = Voice(lang: string, name: string)

  /** The voice speaks exactly the requested tag. */
  predicate Exact(v: Voice, tag: string) {
    v.lang == tag
  }

  /** An exact voice whose name marks it as a neural (more natural) voice. */
  predicate Preferred(v: Voice, tag: string) {
    Exact(v, tag) && Contains(v.name, "Neural")
  }

  /** The first preferred voice, else the first exact voice, else none. */
  function SelectVoice(voices: seq<Voice>, tag: string): (r: Option<Voice>)
    ensures r.Some? ==> r.value in voices && Exact(r.value, tag)
    ensures r.None? <==> forall i :: 0 <= i < |voices| ==> !Exact(voices[i], tag)
    ensures (exists i :: 0 <= i < |voices| && Preferred(voices[i], tag)) ==>
              exists i :: IsFirst(voices, v => Preferred(v, tag), i) && r == Some(voices[i])
    ensures (forall i :: 0 <= i < |voices| ==> !Preferred(voices[i], tag)) && r.Some? ==>
              exists i :: IsFirst(voices, v => Exact(v, tag), i) && r == Some(voices[i])
  {
    match Find(voices, v => Preferred(v, tag))
    case Some(v) => Some(v)
    case None => Find(voices, v => Exact(v, tag))
  }

  /** The voices of the requested tag, in inventory order. */
  function ExactVoices(voices: seq<Voice>, tag: string): (r: seq<Voice>)
    ensures forall v :: v in r <==> v in voices && Exact(v, tag)
    ensures IsSubsequence(r, voices)
    ensures forall v :: multiset(r)[v] == if Exact(v, tag) then multiset(voices)[v] else 0
  {
    if |voices| == 0 then []
    else
      var rest := ExactVoices(voices[1..], tag);
      assert voices == [voices[0]] + voices[1..];
      if Exact(voices[0], tag) then
        assert ([voices[0]] + rest)[1..] == rest;
        [voices[0]] + rest
      else
        rest
  }

  /** Voices of other languages never affect the choice: selecting from the
      exact voices alone gives the same voice, which is the first preferred
      one of them or else simply the first of them. */
  lemma SelectIgnoresOtherLanguages(voices: seq<Voice>, tag: string)
    ensures var ex := ExactVoices(voices, tag);
            && SelectVoice(voices, tag) == SelectVoice(ex, tag)
            && SelectVoice(voices, tag) ==
                 match Find(ex, v => Preferred(v, tag))
                 case Some(v) => Some(v)
                 case None => if |ex| == 0 then None else Some(ex[0])
  {
    var ex := ExactVoices(voices, tag);
    FindPreferredAmongExact(voices, tag);
    FindExactIsFirstExact(voices, tag);
    FindPreferredAmongExact(ex, tag);
    FindExactIsFirstExact(ex, tag);
    ExactVoicesIdempotent(voices, tag);
  }

  lemma {:induction false} FindPreferredAmongExact(voices: seq<Voice>, tag: string)
    ensures Find(voices, v => Preferred(v, tag)) == Find(ExactVoices(voices, tag), v => Preferred(v, tag))
    decreases |voices|
  {
    if |voices| > 0 {
      var ex := ExactVoices(voices, tag);
      FindCons(voices, v => Preferred(v, tag));
      FindPreferredAmongExact(voices[1..], tag);
      if Exact(voices[0], tag) {
        assert ex == [voices[0]] + ExactVoices(voices[1..], tag);
        assert ex[1..] == ExactVoices(voices[1..], tag);
        FindCons(ex, v => Preferred(v, tag));
      } else {
        assert ex == ExactVoices(voices[1..], tag);
      }
    }
  }

  lemma {:induction false} FindExactIsFirstExact(voices: seq<Voice>, tag: string)
    ensures var ex := ExactVoices(voices, tag);
            Find(voices, v => Exact(v, tag)) == if |ex| == 0 then None else Some(ex[0])
    decreases |voices|
  {
    if |voices| > 0 {
      var ex := ExactVoices(voices, tag);
      FindCons(voices, v => Exact(v, tag));
      FindExactIsFirstExact(voices[1..], tag);
      if Exact(voices[0], tag) {
        assert ex == [voices[0]] + ExactVoices(voices[1..], tag);
      } else {
        assert ex == ExactVoices(voices[1..], tag);
      }
    }
  }

  lemma {:induction false} ExactVoicesIdempotent(voices: seq<Voice>, tag: string)
    ensures ExactVoices(ExactVoices(voices, tag), tag) == ExactVoices(voices, tag)
    decreases |voices|
  {
    if |voices| > 0 {
      var ex := ExactVoices(voices, tag);
      ExactVoicesIdempotent(voices[1..], tag);
      if Exact(voices[0], tag) {
        assert ex == [voices[0]] + ExactVoices(voices[1..], tag);
        assert ex[1..] == ExactVoices(voices[1..], tag);
      } else {
        assert ex == ExactVoices(voices[1..], tag);
      }
    }
  }
}
