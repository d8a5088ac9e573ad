/**
 * The smart speaker of the state pattern (pattern/08_state.go).
 *
 * A speaker is silent, playing music or playing a podcast. Each of its
 * three actions is delegated to the current state object, which either
 * switches the speaker to another state and reports "OK", or leaves it as
 * it is and reports a warning. The state objects carry nothing but a
 * back-pointer to the speaker, taken here to be the speaker itself (as
 * `main` builds every state), so a state is modelled by its kind alone, and
 * each printed line by the message it carries.
 */
module Speaker {
  import opened Results

  datatype Mode = Stop | Music | Podcast

  datatype Action = MusicOn | PodcastOn | StopBroadcasting

  /** The lines the states print, one per action. */
  datatype Message =
    | MusicStarted | PodcastStarted | MusicStopped | PodcastStopped
    | MusicAlreadyPlaying | PodcastAlreadyPlaying | StopAlreadySet

  /** A report starting with "OK:" rather than "Warning:". */
  predicate IsOk(msg: Message) {
    msg.MusicStarted? || msg.PodcastStarted? || msg.MusicStopped? || msg.PodcastStopped?
  }

  /** The printed text of a message, without its newline. */
  function Text(msg: Message): string {
    match msg
    case MusicStarted => "OK: Music started playing"
    case PodcastStarted => "OK: Podcast started playing"
    case MusicStopped => "OK: Music stopped"
    case PodcastStopped => "OK: Podcast stopped"
    case MusicAlreadyPlaying => "Warning: Music is already playing"
    case PodcastAlreadyPlaying => "Warning: Podcast is already playing"
    case StopAlreadySet => "Warning: Stop is already set"
  }

  /**
   * The rules the design sets out: music and podcasts can be started only
   * from silence, and only a playing speaker can be stopped.
   */
  predicate Permitted(m: Mode, a: Action) {
    match a
    case MusicOn => m == Stop
    case PodcastOn => m == Stop
    case StopBroadcasting => m != Stop
  }

  /** One action taken by the state object of kind `m`: the next state and the printed line. */
  function Transition(m: Mode, a: Action): (r: (Mode, Message))
    ensures m == Stop && a == MusicOn ==> r.0 == Music
    ensures m == Stop && a == PodcastOn ==> r.0 == Podcast
    ensures m != Stop && a == StopBroadcasting ==> r.0 == Stop
    ensures a != StopBroadcasting ==> r.0 != Stop
    ensures (m == Music && r.0 == Podcast) ==> false
    ensures (m == Podcast && r.0 == Music) ==> false
  {
    match m
    case Stop =>
      (match a
       case MusicOn => (Music, MusicStarted)
       case PodcastOn => (Podcast, PodcastStarted)
       case StopBroadcasting => (Stop, StopAlreadySet))
    case Music =>
      (match a
       case StopBroadcasting => (Stop, MusicStopped)
       case _ => (Music, MusicAlreadyPlaying))
    case Podcast =>
      (match a
       case StopBroadcasting => (Stop, PodcastStopped)
       case _ => (Podcast, PodcastAlreadyPlaying))
  }

  /**
   * An action changes the state exactly when the design permits it, and it
   * is reported with "OK" exactly then; a refused action leaves the state
   * as it was.
   */
  lemma TransitionFollowsRules(m: Mode, a: Action)
    ensures Transition(m, a).0 != m <==> Permitted(m, a)
    ensures IsOk(Transition(m, a).1) <==> Permitted(m, a)
    ensures !Permitted(m, a) ==> Transition(m, a).0 == m
  {
  }

  /** The speaker: a name and the current state object, nil until the first SetState. */
  datatype SmartSpeaker = SmartSpeaker(name: string, state: Option<Mode>)

  /** SetState: replace the current state; the name stays. */
  function SetState(sp: SmartSpeaker, m: Mode): (r: SmartSpeaker)
    ensures r.name == sp.name && r.state == Some(m)
  {
    sp.(state := Some(m))
  }

  /**
   * One of the speaker's actions: delegated to the current state. With no
   * state set the call goes through a nil interface and panics (None).
   */
  function Act(sp: SmartSpeaker, a: Action): (r: Option<(SmartSpeaker, Message)>)
    ensures r.Some? <==> sp.state.Some?
    ensures r.Some? ==> r.value.0.name == sp.name && r.value.0.state.Some?
    ensures r.Some? ==> (r.value.0.state.value, r.value.1) == Transition(sp.state.value, a)
  {
    match sp.state
    case None => None
    case Some(m) =>
      var (next, msg) := Transition(m, a);
      Some((SetState(sp, next), msg))
  }

  /** A sequence of actions from state `m`: the final state and the lines printed, in order. */
  function Run(m: Mode, actions: seq<Action>): (r: (Mode, seq<Message>))
    ensures |r.1| == |actions|
    decreases |actions|
  {
    if |actions| == 0 then (m, [])
    else
      var (next, msg) := Transition(m, actions[0]);
      var (last, msgs) := Run(next, actions[1..]);
      (last, [msg] + msgs)
  }

  /** Running a sequence followed by more actions continues from where the first run stopped. */
  lemma {:induction false} RunAppend(m: Mode, xs: seq<Action>, ys: seq<Action>)
    ensures Run(m, xs + ys).0 == Run(Run(m, xs).0, ys).0
    ensures Run(m, xs + ys).1 == Run(m, xs).1 + Run(Run(m, xs).0, ys).1
    decreases |xs|
  {
    if |xs| > 0 {
      assert (xs + ys)[1..] == xs[1..] + ys;
      RunAppend(Transition(m, xs[0]).0, xs[1..], ys);
    } else {
      assert xs + ys == ys;
    }
  }

  /** Whatever happened before, a final StopBroadcasting leaves the speaker silent. */
  lemma StopLast(m: Mode, actions: seq<Action>)
    requires |actions| > 0 && actions[|actions| - 1] == StopBroadcasting
    ensures Run(m, actions).0 == Stop
  {
    var init := actions[..|actions| - 1];
    assert actions == init + [StopBroadcasting];
    RunAppend(m, init, [StopBroadcasting]);
  }

  /**
   * No run ever switches between music and podcast in one step: every
   * consecutive pair of states along a run is allowed by Transition, which
   * never goes from one to the other.
   */
  function Trace(m: Mode, actions: seq<Action>): (r: seq<Mode>)
    ensures |r| == |actions| + 1 && r[0] == m
    ensures r[|actions|] == Run(m, actions).0
    ensures forall i :: 0 <= i < |actions| ==> r[i + 1] == Transition(r[i], actions[i]).0
    decreases |actions|
  {
    if |actions| == 0 then [m]
    else [m] + Trace(Transition(m, actions[0]).0, actions[1..])
  }

  lemma NeverSwitchesDirectly(m: Mode, actions: seq<Action>)
    ensures forall i :: 0 <= i < |actions| ==>
      !(Trace(m, actions)[i] == Music && Trace(m, actions)[i + 1] == Podcast)
      && !(Trace(m, actions)[i] == Podcast && Trace(m, actions)[i + 1] == Music)
  {
  }

  /** The actions the demonstration takes after setting the Stop state. */
  const DemoActions: seq<Action> :=
    [StopBroadcasting, MusicOn, MusicOn, PodcastOn, StopBroadcasting, StopBroadcasting, PodcastOn, StopBroadcasting]

  /**
   * The demonstration: a speaker named Alice with no state is put into
   * Stop, then takes the demo actions. It ends silent, and prints one
   * warning, a start, two warnings, a stop, a warning, a start and a stop.
   */
  lemma Demo()
    ensures Run(Stop, DemoActions).0 == Stop
    ensures Run(Stop, DemoActions).1 ==
      [StopAlreadySet, MusicStarted, MusicAlreadyPlaying, MusicAlreadyPlaying,
       MusicStopped, StopAlreadySet, PodcastStarted, PodcastStopped]
    ensures Act(SmartSpeaker("Alice", None), StopBroadcasting).None?
    ensures SetState(SmartSpeaker("Alice", None), Stop).state == Some(Stop)
  {
    StopLast(Stop, DemoActions);
  }
}
