/** The narration controls of the plant page: speak, pause/resume and stop.
    The component's fields are a record; each control is a function from the
    record before to the record after. The narration engine and the
    translation service are not modelled, only the calls made to them, in
    order, in `calls`. */
module Playback {
  import opened Wrappers
  import opened Catalog
  import opened Language
  import opened Voices
  import opened Translation

  /** What is handed to the engine: the text, its language tag and the chosen voice, if any. */
  datatype Utterance = Utterance(text: string, lang: string, voice: Option<Voice>)

  /** A call to the outside world: the four engine calls, and the translation request. */
  datatype Call =
    | Cancel
    | Pause
    | Resume
    | Speak(utterance: Utterance)
    | Fetch(text: string, target: string)

  /** The component's fields: the page, the last utterance created, the pause flag and the calls made so far. */
  datatype Component = Component(page: Page, utterance: Option<Utterance>, isPaused: bool, calls: seq<Call>)

  /** The component once the page has opened for the given route id. */
  function Init(catalog: seq<PlantRecord>, routeId: Option<string>): (c: Component)
    ensures c.utterance.None? && !c.isPaused && c.calls == []
    ensures c.page.plant.Some? <==> Lookup(catalog, routeId).Some?
  {
    Component(Open(catalog, routeId), None, false, [])
  }

  /** The part of `speak` before the translation is awaited: stop any earlier
      speech, clear the pause flag, and ask for a translation unless the tag is the native one. */
  function BeginSpeak(c: Component, lang: string): (r: Component)
    ensures c.page.plant.None? ==> r == c
    ensures c.page.plant.Some? ==>
              && r.page == c.page && r.utterance == c.utterance && !r.isPaused
              && |r.calls| == |c.calls| + (if lang == NativeTag then 1 else 2)
              && c.calls <= r.calls && r.calls[|c.calls|] == Cancel
              && (lang != NativeTag ==> r.calls == c.calls + [Cancel, Fetch(c.page.plant.value.ttsText, LanguageCode(lang))])
  {
    match c.page.plant
    case None => c
    case Some(plant) =>
      var request := match TranslationTarget(lang)
                     case None => []
                     case Some(code) => [Fetch(plant.ttsText, code)];
      c.(isPaused := false, calls := c.calls + [Cancel] + request)
  }

  /** The part of `speak` after the translation is back: build the utterance
      for the (translated or original) text, pick its voice and speak it. */
  function FinishSpeak(c: Component, lang: string, response: Option<seq<Segment>>, voices: seq<Voice>): (r: Component)
    requires c.page.plant.Some?
    ensures r.page == c.page && r.isPaused == c.isPaused
    ensures r.utterance.Some? && r.calls == c.calls + [Speak(r.utterance.value)]
    ensures var u := r.utterance.value;
            && u.lang == lang
            && u.voice == SelectVoice(voices, lang)
            && (lang == NativeTag || response.None? ==> u.text == c.page.plant.value.ttsText)
            && (lang != NativeTag && response.Some? ==> u.text == JoinFragments(response.value))
  {
    var ttsText := c.page.plant.value.ttsText;
    var text := if lang == NativeTag then ttsText else Translated(response, ttsText);
    var u := Utterance(text, lang, SelectVoice(voices, lang));
    c.(utterance := Some(u), calls := c.calls + [Speak(u)])
  }

  /** `speak(lang)` when nothing else happens while the translation is awaited. */
  function SpeakIn(c: Component, lang: string, response: Option<seq<Segment>>, voices: seq<Voice>): (r: Component)
    ensures c.page.plant.None? ==> r == c
    ensures c.page.plant.Some? ==>
              && r.page == c.page && !r.isPaused && r.utterance.Some?
              && |r.calls| == |c.calls| + (if lang == NativeTag then 2 else 3)
              && c.calls <= r.calls && r.calls[|c.calls|] == Cancel
              && (lang != NativeTag ==> r.calls[|c.calls| + 1] == Fetch(c.page.plant.value.ttsText, LanguageCode(lang)))
              && r.calls[|r.calls| - 1] == Speak(r.utterance.value)
              && Queued(r.calls) == 1
    ensures c.page.plant.Some? ==>
              var u := r.utterance.value;
              && u.lang == lang
              && u.voice == SelectVoice(voices, lang)
              && (lang == NativeTag || response.None? ==> u.text == c.page.plant.value.ttsText)
              && (lang != NativeTag && response.Some? ==> u.text == JoinFragments(response.value))
  {
    if c.page.plant.None? then c
    else
      var begun := BeginSpeak(c, lang);
      var r := FinishSpeak(begun, lang, response, voices);
      QueuedAfter(c.calls, Cancel);
      QueuedAfter(begun.calls, Speak(r.utterance.value));
      if lang == NativeTag then
        assert begun.calls == c.calls + [Cancel];
        r
      else
        var fetch := Fetch(c.page.plant.value.ttsText, LanguageCode(lang));
        assert begun.calls == c.calls + [Cancel] + [fetch];
        QueuedAfter(c.calls + [Cancel], fetch);
        r
  }

  /** `pauseSpeech()`: with an utterance, toggle between paused and speaking;
      without one, do nothing. */
  function PauseSpeech(c: Component): (r: Component)
    ensures c.utterance.None? ==> r == c
    ensures c.utterance.Some? ==>
              && r.isPaused == !c.isPaused
              && r.page == c.page && r.utterance == c.utterance
              && r.calls == c.calls + [if c.isPaused then Resume else Pause]
  {
    if c.utterance.None? then c
    else if !c.isPaused then c.(isPaused := true, calls := c.calls + [Pause])
    else c.(isPaused := false, calls := c.calls + [Resume])
  }

  /** `stopSpeech()`: cancel the engine and clear the pause flag. The last
      utterance is kept. */
  function StopSpeech(c: Component): (r: Component)
    ensures !r.isPaused
    ensures r.page == c.page && r.utterance == c.utterance
    ensures r.calls == c.calls + [Cancel]
  {
    c.(isPaused := false, calls := c.calls + [Cancel])
  }

  /** How many utterances the engine holds: each `speak` queues one and
      `cancel` drops them all. Utterances that end by themselves are not
      modelled, so this is an upper bound on what is still to be heard. */
  function Queued(calls: seq<Call>): nat
    decreases |calls|
  {
    if |calls| == 0 then 0
    else
      var prior := Queued(calls[..|calls| - 1]);
      match calls[|calls| - 1]
      case Cancel => 0
      case Speak(_) => prior + 1
      case _ => prior
  }

  lemma QueuedAfter(calls: seq<Call>, call: Call)
    ensures Queued(calls + [call]) == match call
                                      case Cancel => 0
                                      case Speak(_) => Queued(calls) + 1
                                      case _ => Queued(calls)
  {
    assert (calls + [call])[..|calls|] == calls;
  }

  /** What holds of the component between user actions: at most one
      utterance is queued, the pause flag is set exactly when the last call
      was `pause` (which needs an utterance), and no utterance exists without a plant. */
  ghost predicate Consistent(c: Component) {
    && Queued(c.calls) <= 1
    && (c.isPaused <==> |c.calls| > 0 && c.calls[|c.calls| - 1] == Pause)
    && (c.isPaused ==> c.utterance.Some?)
    && (c.page.plant.None? ==> c.utterance.None?)
  }

  /** A user action on the page. */
  datatype Action =
    | SpeakAction(lang: string, response: Option<seq<Segment>>, voices: seq<Voice>)
    | PauseAction
    | StopAction

  function Step(c: Component, a: Action): Component {
    match a
    case SpeakAction(lang, response, voices) => SpeakIn(c, lang, response, voices)
    case PauseAction => PauseSpeech(c)
    case StopAction => StopSpeech(c)
  }

  /** The actions in order, each finishing before the next begins. */
  function Run(c: Component, actions: seq<Action>): Component
    decreases |actions|
  {
    if |actions| == 0 then c else Run(Step(c, actions[0]), actions[1..])
  }

  lemma InitConsistent(catalog: seq<PlantRecord>, routeId: Option<string>)
    ensures Consistent(Init(catalog, routeId))
  {
  }

  /** Every control keeps the component consistent. */
  lemma StepConsistent(c: Component, a: Action)
    requires Consistent(c)
    ensures Consistent(Step(c, a))
  {
    var r := Step(c, a);
    match a
    case SpeakAction(lang, response, voices) =>
      if c.page.plant.Some? {
        var mid := BeginSpeak(c, lang);
        QueuedAfter(c.calls, Cancel);
        if lang != NativeTag {
          assert mid.calls == c.calls + [Cancel] + [mid.calls[|mid.calls| - 1]];
          QueuedAfter(c.calls + [Cancel], mid.calls[|mid.calls| - 1]);
        } else {
          assert mid.calls == c.calls + [Cancel];
        }
        QueuedAfter(mid.calls, Speak(r.utterance.value));
      }
    case PauseAction =>
      if c.utterance.Some? {
        QueuedAfter(c.calls, r.calls[|r.calls| - 1]);
      }
    case StopAction =>
      QueuedAfter(c.calls, Cancel);
  }

  lemma {:induction false} RunConsistent(c: Component, actions: seq<Action>)
    requires Consistent(c)
    ensures Consistent(Run(c, actions))
    decreases |actions|
  {
    if |actions| > 0 {
      StepConsistent(c, actions[0]);
      RunConsistent(Step(c, actions[0]), actions[1..]);
    }
  }

  /** Whatever the user does, one action at a time, the engine never holds
      more than one utterance and the pause flag mirrors the last engine call. */
  lemma ReachableConsistent(catalog: seq<PlantRecord>, routeId: Option<string>, actions: seq<Action>)
    ensures Consistent(Run(Init(catalog, routeId), actions))
  {
    InitConsistent(catalog, routeId);
    RunConsistent(Init(catalog, routeId), actions);
  }

  /** Pausing twice comes back to where it started, with a pause and a resume in between. */
  lemma PauseTwiceRestores(c: Component)
    requires c.utterance.Some?
    ensures var r := PauseSpeech(PauseSpeech(c));
            && r.isPaused == c.isPaused && r.utterance == c.utterance && r.page == c.page
            && r.calls == c.calls + (if c.isPaused then [Resume, Pause] else [Pause, Resume])
  {
  }

  /** Stopping twice leaves the same flags as stopping once, with nothing queued either time. */
  lemma StopIdempotent(c: Component)
    ensures var once, twice := StopSpeech(c), StopSpeech(StopSpeech(c));
            && twice.(calls := once.calls) == once
            && Queued(once.calls) == 0 && Queued(twice.calls) == 0
  {
    QueuedAfter(c.calls, Cancel);
    QueuedAfter(c.calls + [Cancel], Cancel);
  }

  /** Stop keeps the utterance, so the pause control still works afterwards:
      it issues `pause` to an engine with nothing queued and shows the page as paused. */
  lemma ToggleAfterStop(c: Component)
    requires c.utterance.Some?
    ensures var r := PauseSpeech(StopSpeech(c));
            && r.isPaused
            && r.calls == c.calls + [Cancel, Pause]
            && Queued(r.calls) == 0
  {
    QueuedAfter(c.calls, Cancel);
    QueuedAfter(c.calls + [Cancel], Pause);
    assert c.calls + [Cancel] + [Pause] == c.calls + [Cancel, Pause];
  }

  /** Two requests whose translations overlap: the second `speak` starts
      before the first one's translation is back. Both utterances reach the
      engine, and the page keeps the older one as its utterance. */
  lemma OverlappingSpeaksQueueTwo(c: Component, first: string, second: string,
                                  firstResponse: Option<seq<Segment>>, secondResponse: Option<seq<Segment>>,
                                  voices: seq<Voice>)
    requires c.page.plant.Some? && first != NativeTag
    ensures var started := BeginSpeak(BeginSpeak(c, first), second);
            var r := FinishSpeak(FinishSpeak(started, second, secondResponse, voices), first, firstResponse, voices);
            && Queued(r.calls) == 2
            && r.utterance.value.lang == first
  {
    var c1 := BeginSpeak(c, first);
    var c2 := BeginSpeak(c1, second);
    var c3 := FinishSpeak(c2, second, secondResponse, voices);
    var c4 := FinishSpeak(c3, first, firstResponse, voices);
    QueuedAfter(c1.calls, Cancel);
    if second != NativeTag {
      assert c2.calls == c1.calls + [Cancel] + [c2.calls[|c2.calls| - 1]];
      QueuedAfter(c1.calls + [Cancel], c2.calls[|c2.calls| - 1]);
    } else {
      assert c2.calls == c1.calls + [Cancel];
    }
    QueuedAfter(c2.calls, Speak(c3.utterance.value));
    QueuedAfter(c3.calls, Speak(c4.utterance.value));
  }

  /** The same two overlapping requests when the translations come back in
      the order they were asked for: both utterances still reach the engine,
      and the page keeps the newer one. Whichever translation arrives last
      sets the page's utterance. */
  lemma InOrderOverlapKeepsNewer(c: Component, first: string, second: string,
                                 firstResponse: Option<seq<Segment>>, secondResponse: Option<seq<Segment>>,
                                 voices: seq<Voice>)
    requires c.page.plant.Some? && first != NativeTag && second != NativeTag
    ensures var started := BeginSpeak(BeginSpeak(c, first), second);
            var r := FinishSpeak(FinishSpeak(started, first, firstResponse, voices), second, secondResponse, voices);
            && Queued(r.calls) == 2
            && r.utterance.value.lang == second
  {
    var c1 := BeginSpeak(c, first);
    var c2 := BeginSpeak(c1, second);
    var c3 := FinishSpeak(c2, first, firstResponse, voices);
    var c4 := FinishSpeak(c3, second, secondResponse, voices);
    QueuedAfter(c1.calls, Cancel);
    assert c2.calls == c1.calls + [Cancel] + [c2.calls[|c2.calls| - 1]];
    QueuedAfter(c1.calls + [Cancel], c2.calls[|c2.calls| - 1]);
    QueuedAfter(c2.calls, Speak(c3.utterance.value));
    QueuedAfter(c3.calls, Speak(c4.utterance.value));
  }

  /** Stopping while a translation is awaited does not stop the narration:
      the utterance is spoken once the translation is back. */
  lemma StopBeforeTranslationArrives(c: Component, lang: string, response: Option<seq<Segment>>, voices: seq<Voice>)
    requires c.page.plant.Some? && lang != NativeTag
    ensures var r := FinishSpeak(StopSpeech(BeginSpeak(c, lang)), lang, response, voices);
            && Queued(r.calls) == 1
            && r.calls[|r.calls| - 1] == Speak(r.utterance.value)
  {
    var stopped := StopSpeech(BeginSpeak(c, lang));
    QueuedAfter(BeginSpeak(c, lang).calls, Cancel);
    QueuedAfter(stopped.calls, Speak(FinishSpeak(stopped, lang, response, voices).utterance.value));
  }
}
