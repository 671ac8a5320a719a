/**
 The dialog over time. The candidate list is meant to be a function of the
 network, the search text and the two token lists (the resolver's answer
 aside). Two of the component's handlers do not keep that relation:
 dismissal clears the text but keeps the candidates, and the re-seed on a
 list or network change resets the candidates to the whole list whatever
 the text is. This module states the relation, gives handlers that keep
 it, and proves that every run of the dialog built from them keeps it.
 */
module DialogSession {
  import opened Tokens
  import opened Address
  import opened TokenFilter
  import opened TokenSearch

  /**
   The candidates are what the keystroke dispatch would settle on for the
   current text, for some answer of the resolver.
   */
  ghost predicate Consistent(s: DialogState, network: Network, eth: seq<TokenInfo>, gravityBridge: seq<TokenInfo>) {
    exists resolver :: s.candidates == ComputeCandidates(network, s.searchText, eth, gravityBridge, resolver)
  }

  /** A keystroke always leaves the dialog consistent, whatever it was before. */
  lemma KeystrokeIsConsistent(
    s: DialogState, network: Network, eventValue: Option<string>,
    eth: seq<TokenInfo>, gravityBridge: seq<TokenInfo>, resolver: ResolverOutcome)
    ensures Consistent(Apply(s, OnSearchTextChange(network, eventValue, eth, gravityBridge, resolver)),
                       network, eth, gravityBridge)
  {
    KeystrokeSetsTextAndCandidates(s, network, eventValue, eth, gravityBridge, resolver);
    var after := Apply(s, OnSearchTextChange(network, eventValue, eth, gravityBridge, resolver));
    assert after.candidates == ComputeCandidates(network, after.searchText, eth, gravityBridge, resolver);
  }

  /**
   Dismissal that also resets the candidates to the active list, so that a
   reopened dialog shows an empty field above the whole list.
   */
  function OnCloseReset(network: Network, eth: seq<TokenInfo>, gravityBridge: seq<TokenInfo>): seq<Effect> {
    [SetSearchText(""), SetCandidateByNetwork(network, eth, gravityBridge), Close]
  }

  /**
   The corrected dismissal clears the text before `close`, calls only
   `close`, and leaves the dialog consistent from any state.
   */
  lemma DismissResetIsConsistent(s: DialogState, network: Network, eth: seq<TokenInfo>, gravityBridge: seq<TokenInfo>)
    ensures Apply(s, OnCloseReset(network, eth, gravityBridge)) ==
      DialogState("", GetCandidateByNetwork(network, eth, gravityBridge))
    ensures Callbacks(OnCloseReset(network, eth, gravityBridge)) == [Close]
    ensures Consistent(Apply(s, OnCloseReset(network, eth, gravityBridge)), network, eth, gravityBridge)
  {
    var effects := OnCloseReset(network, eth, gravityBridge);
    var s1 := s.(searchText := "");
    var s2 := s1.(candidates := GetCandidateByNetwork(network, eth, gravityBridge));
    assert effects[1..][1..] == [Close] && effects[1..][1..][1..] == [];
    assert Apply(s, effects) == Apply(s1, effects[1..]);
    assert Apply(s1, effects[1..]) == Apply(s2, effects[1..][1..]);
    assert Apply(s2, effects[1..][1..]) == Apply(s2, []);
    assert s2.candidates == ComputeCandidates(network, "", eth, gravityBridge, Absent);
    assert Callbacks(effects[1..][1..]) == [Close] + Callbacks([]);
    assert Callbacks(effects) == Callbacks(effects[1..]) == Callbacks(effects[1..][1..]);
  }

  /** Re-seed that recomputes the candidates for the text currently shown. */
  function ReseedForText(
    network: Network, text: string, eth: seq<TokenInfo>, gravityBridge: seq<TokenInfo>,
    resolver: ResolverOutcome
  ): seq<Effect> {
    [SetCandidates(ComputeCandidates(network, text, eth, gravityBridge, resolver))]
  }

  /**
   The corrected re-seed keeps the text, calls nothing, and leaves the
   dialog consistent with the new network and lists; for empty text it is
   the component's own re-seed.
   */
  lemma ReseedForTextIsConsistent(
    s: DialogState, network: Network, eth: seq<TokenInfo>, gravityBridge: seq<TokenInfo>,
    resolver: ResolverOutcome)
    ensures Apply(s, ReseedForText(network, s.searchText, eth, gravityBridge, resolver)).searchText == s.searchText
    ensures Callbacks(ReseedForText(network, s.searchText, eth, gravityBridge, resolver)) == []
    ensures Consistent(Apply(s, ReseedForText(network, s.searchText, eth, gravityBridge, resolver)),
                       network, eth, gravityBridge)
    ensures s.searchText == "" ==>
      ReseedForText(network, s.searchText, eth, gravityBridge, resolver) == Reseed(network, eth, gravityBridge)
  {
  }

  /** What can happen to an open dialog. */
  datatype UiEvent =
    | Typed(eventValue: Option<string>, resolver: ResolverOutcome)
    | Picked(token: TokenInfo)
    | Dismissed
    | InputsChanged(network: Network, eth: seq<TokenInfo>, gravityBridge: seq<TokenInfo>, resolver: ResolverOutcome)

  /** The dialog's state together with the inputs it is rendered with. */
  datatype Session = Session(
    state: DialogState,
    network: Network,
    eth: seq<TokenInfo>,
    gravityBridge: seq<TokenInfo>
  )

  ghost predicate SessionConsistent(ss: Session) {
    Consistent(ss.state, ss.network, ss.eth, ss.gravityBridge)
  }

  /** The dialog right after mounting and its first re-seed. */
  function Mount(network: Network, eth: seq<TokenInfo>, gravityBridge: seq<TokenInfo>): Session {
    Session(Apply(Initial, Reseed(network, eth, gravityBridge)), network, eth, gravityBridge)
  }

  /** One event, handled with the corrected dismissal and re-seed. */
  function Step(ss: Session, ev: UiEvent): Session {
    match ev
    case Typed(v, resolver) =>
      ss.(state := Apply(ss.state, OnSearchTextChange(ss.network, v, ss.eth, ss.gravityBridge, resolver)))
    case Picked(t) =>
      ss.(state := Apply(ss.state, OnTokenSelect(t)))
    case Dismissed =>
      ss.(state := Apply(ss.state, OnCloseReset(ss.network, ss.eth, ss.gravityBridge)))
    case InputsChanged(n, e, g, resolver) =>
      Session(Apply(ss.state, ReseedForText(n, ss.state.searchText, e, g, resolver)), n, e, g)
  }

  function Run(ss: Session, events: seq<UiEvent>): Session
    decreases |events|
  {
    if events == [] then ss else Run(Step(ss, events[0]), events[1..])
  }

  /** Mounting yields a consistent dialog. */
  lemma MountIsConsistent(network: Network, eth: seq<TokenInfo>, gravityBridge: seq<TokenInfo>)
    ensures Mount(network, eth, gravityBridge).state ==
      DialogState("", GetCandidateByNetwork(network, eth, gravityBridge))
    ensures SessionConsistent(Mount(network, eth, gravityBridge))
  {
    ReseedShowsActiveList(Initial, network, eth, gravityBridge);
    var ss := Mount(network, eth, gravityBridge);
    assert ss.state.candidates == ComputeCandidates(network, "", eth, gravityBridge, Absent);
  }

  /** Each corrected step keeps the dialog consistent. */
  lemma StepKeepsConsistent(ss: Session, ev: UiEvent)
    requires SessionConsistent(ss)
    ensures SessionConsistent(Step(ss, ev))
  {
    match ev
    case Typed(v, resolver) =>
      KeystrokeIsConsistent(ss.state, ss.network, v, ss.eth, ss.gravityBridge, resolver);
    case Picked(t) =>
      SelectCallsSelectThenClose(ss.state, t);
    case Dismissed =>
      DismissResetIsConsistent(ss.state, ss.network, ss.eth, ss.gravityBridge);
    case InputsChanged(n, e, g, resolver) =>
      ReseedForTextIsConsistent(ss.state, n, e, g, resolver);
  }

  /** Every run of corrected steps from a consistent dialog stays consistent. */
  lemma {:induction false} RunKeepsConsistent(ss: Session, events: seq<UiEvent>)
    requires SessionConsistent(ss)
    ensures SessionConsistent(Run(ss, events))
    decreases |events|
  {
    if events != [] {
      StepKeepsConsistent(ss, events[0]);
      RunKeepsConsistent(Step(ss, events[0]), events[1..]);
    }
  }

  /** In particular, every run from mounting is consistent. */
  lemma SessionAlwaysConsistent(network: Network, eth: seq<TokenInfo>, gravityBridge: seq<TokenInfo>, events: seq<UiEvent>)
    ensures SessionConsistent(Run(Mount(network, eth, gravityBridge), events))
  {
    MountIsConsistent(network, eth, gravityBridge);
    RunKeepsConsistent(Mount(network, eth, gravityBridge), events);
  }
}
