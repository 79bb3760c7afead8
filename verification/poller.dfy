/** Song-change detection in the tab loader's polling loop.

    The loop remembers the name of the last song it loaded tabs for, starting from the
    empty name. On each poll it looks at the track the player reports. A new song is
    signalled when the remembered name is empty or differs from the current one. On a
    signal the loop dispatches a tab lookup for the current track and remembers its name.
    The player's current track is a parameter here, not a remote read.
 */
module Poller {

  /** What the player reports as playing. */
  datatype Track = Track(name: string, artist: string)

  /** What one poll does: keep waiting, or look up tabs for the given track. */
  datatype Action = Wait | Dispatch(track: Track)

  /** The loop's memory: the name of the last song it dispatched. */
  datatype State = State(currSong: string)

  /** The state before the first poll: no song remembered. */
  const Start: State := State("")

  /** The outcome of one poll. */
  datatype Step = Step(next: State, action: Action)

  /** A new song is playing when nothing is remembered or the name has changed. */
  predicate NewSongPlayed(oldSong: string, currSong: string) {
    oldSong == "" || currSong != oldSong
  }

  /** One poll against the track the player reports. Whichever way it goes, the loop
      then remembers the current name; it waits exactly when the remembered name is
      non-empty and equal to the current one, and otherwise dispatches that track. */
  function Poll(s: State, t: Track): (r: Step)
    ensures r.next.currSong == t.name
    ensures r.action.Wait? <==> s.currSong != "" && s.currSong == t.name
    ensures r.action.Dispatch? ==> r.action.track == t
    ensures r.action.Wait? ==> r.next == s
  {
    if NewSongPlayed(s.currSong, t.name) then Step(State(t.name), Dispatch(t)) else Step(s, Wait)
  }

  /** The first poll after start-up always dispatches. */
  lemma FirstPollDispatches(t: Track)
    ensures Poll(Start, t) == Step(State(t.name), Dispatch(t))
  {
  }

  /** Polling again while the same named track is still playing does nothing, as long
      as the name is not empty. */
  lemma RepeatedPollWaits(s: State, t: Track)
    requires t.name != ""
    ensures Poll(Poll(s, t).next, t) == Step(Poll(s, t).next, Wait)
  {
  }

  /** A track with an empty name dispatches on every poll, because an empty remembered
      name always signals a new song. */
  lemma EmptyNameAlwaysDispatches(s: State, t: Track)
    requires t.name == ""
    ensures Poll(s, t).action == Dispatch(t)
    ensures Poll(Poll(s, t).next, t).action == Dispatch(t)
  {
  }

  /** Only the song name is compared: two tracks with the same name lead to the same
      next state and the same decision, whatever their artists. */
  lemma ArtistIgnored(s: State, t: Track, t': Track)
    requires t.name == t'.name
    ensures Poll(s, t).next == Poll(s, t').next
    ensures Poll(s, t).action.Dispatch? <==> Poll(s, t').action.Dispatch?
  {
  }

  /** The actions of successive polls over the tracks `ts`, and the final state. */
  datatype Trace = Trace(final: State, actions: seq<Action>)

  function Run(s: State, ts: seq<Track>): Trace
    decreases |ts|
  {
    if |ts| == 0 then Trace(s, [])
    else
      var step := Poll(s, ts[0]);
      var rest := Run(step.next, ts[1..]);
      Trace(rest.final, [step.action] + rest.actions)
  }

  /** The name the loop remembers when it polls `ts[i]`. */
  function Previous(s: State, ts: seq<Track>, i: int): string
    requires 0 <= i < |ts|
  {
    if i == 0 then s.currSong else ts[i - 1].name
  }

  /** Over a run of polls, the loop dispatches a track exactly at the polls where its
      name is empty or differs from the name polled just before (or from the starting
      memory, for the first poll), and ends remembering the last name polled. */
  lemma {:induction false} RunDispatchesAtChanges(s: State, ts: seq<Track>)
    ensures |Run(s, ts).actions| == |ts|
    ensures forall i :: 0 <= i < |ts| ==>
      Run(s, ts).actions[i] == (if NewSongPlayed(Previous(s, ts, i), ts[i].name) then Dispatch(ts[i]) else Wait)
    ensures Run(s, ts).final == if |ts| == 0 then s else State(ts[|ts| - 1].name)
    decreases |ts|
  {
    if |ts| > 0 {
      var step := Poll(s, ts[0]);
      var tail := ts[1..];
      RunDispatchesAtChanges(step.next, tail);
      forall i | 1 <= i < |ts|
        ensures Previous(s, ts, i) == Previous(step.next, tail, i - 1)
      {
      }
    }
  }
}
