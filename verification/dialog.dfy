/**
 The token-search dialog's logic as pure functions: choosing the active
 list by network, the address lookup, the keystroke dispatch, and the
 select and dismiss handlers. Each handler returns the effects it performs,
 in the order the component performs them; `Apply` replays the state
 setters among them on the dialog's state.
 */
module TokenSearch {
  import opened Text
  import opened Tokens
  import opened Address
  import opened TokenFilter

  /** `getCandidateByNetwork`: the token list searched on `network`. */
  function GetCandidateByNetwork(network: Network, eth: seq<TokenInfo>, gravityBridge: seq<TokenInfo>): (r: seq<TokenInfo>)
    ensures network == Eth ==> r == eth
    ensures network == GravityBridge ==> r == gravityBridge
    ensures network == Unsupported ==> r == []
  {
    match network
    case Eth => eth
    case GravityBridge => gravityBridge
    case Unsupported => []
  }

  /**
   What the component does, in order: its own state setters and the calls
   it makes to its caller's callbacks.
   */
  datatype Effect =
    | SetSearchText(text: string)
    | SetCandidates(list: seq<TokenInfo>)
    | Select(token: TokenInfo)
    | Close

  /**
   `setCandidateByNetwork`: its own three-way branch, handing the chosen
   list to the candidate setter.
   */
  function SetCandidateByNetwork(network: Network, eth: seq<TokenInfo>, gravityBridge: seq<TokenInfo>): (e: Effect)
    ensures e == SetCandidates(GetCandidateByNetwork(network, eth, gravityBridge))
  {
    if network == Eth then SetCandidates(eth)
    else if network == GravityBridge then SetCandidates(gravityBridge)
    else SetCandidates([])
  }

  /** `_.find` on the list: the first token whose address equals `address` exactly. */
  function FindInList(list: seq<TokenInfo>, address: string): (r: Option<TokenInfo>)
    ensures r.None? <==> forall i :: 0 <= i < |list| ==> list[i].address != address
    ensures r.Some? ==> r.value in list && r.value.address == address
    ensures forall i :: IsFirstWithAddress(list, address, i) ==> r == Some(list[i])
  {
    if list == [] then None
    else if list[0].address == address then Some(list[0])
    else
      assert forall i :: IsFirstWithAddress(list, address, i) ==> IsFirstWithAddress(list[1..], address, i - 1);
      FindInList(list[1..], address)
  }

  /** Position `i` holds the first token of `list` with exactly this address. */
  ghost predicate IsFirstWithAddress(list: seq<TokenInfo>, address: string, i: int) {
    && 0 <= i < |list|
    && list[i].address == address
    && forall j :: 0 <= j < i ==> list[j].address != address
  }

  /**
   How the external address resolver (`getERC20Info`) answers when it is
   consulted: a token, nothing (`undefined` or `null`), or a rejection.
   */
  datatype ResolverOutcome = Found(token: TokenInfo) | Absent | Failed

  /** How the promise returned by `findTokenInfo` settles. */
  datatype Settlement = Fulfilled(value: Option<TokenInfo>) | Rejected

  /** How the resolver's own promise settles. */
  function ResolverSettlement(resolver: ResolverOutcome): Settlement {
    match resolver
    case Found(t) => Fulfilled(Some(t))
    case Absent => Fulfilled(None)
    case Failed => Rejected
  }

  /**
   `findTokenInfo`: a list hit settles with the first token holding the
   address, whatever the resolver would answer; otherwise the promise is
   the resolver's own.
   */
  function FindTokenInfo(list: seq<TokenInfo>, address: string, resolver: ResolverOutcome): (r: Settlement)
    ensures forall i :: IsFirstWithAddress(list, address, i) ==> r == Fulfilled(Some(list[i]))
    ensures (forall t :: t in list ==> t.address != address) ==> r == ResolverSettlement(resolver)
  {
    match FindInList(list, address)
    case Some(t) => Fulfilled(Some(t))
    case None => ResolverSettlement(resolver)
  }

  /** The `.then` / `.catch` pair: a token becomes a singleton, anything else `[]`. */
  function SettledCandidates(s: Settlement): (r: seq<TokenInfo>)
    ensures |r| <= 1
    ensures r != [] <==> s.Fulfilled? && s.value.Some?
    ensures r != [] ==> r[0] == s.value.value
  {
    match s
    case Fulfilled(Some(t)) => [t]
    case Fulfilled(None) => []
    case Rejected => []
  }

  /**
   The candidate list the keystroke handler settles on for `text`: the
   whole active list for empty text, the address lookup for address-shaped
   text, the substring filter otherwise.
   */
  function ComputeCandidates(
    network: Network, text: string,
    eth: seq<TokenInfo>, gravityBridge: seq<TokenInfo>,
    resolver: ResolverOutcome
  ): (r: seq<TokenInfo>)
    ensures text == "" ==> r == GetCandidateByNetwork(network, eth, gravityBridge)
    ensures IsEthAddress(text) ==> |r| <= 1
    ensures text != "" && !IsEthAddress(text) ==>
      r == FilterTokenList(GetCandidateByNetwork(network, eth, gravityBridge), text)
  {
    var tokenList := GetCandidateByNetwork(network, eth, gravityBridge);
    if text == "" then SetCandidateByNetwork(network, eth, gravityBridge).list
    else if IsEthAddress(text) then SettledCandidates(FindTokenInfo(tokenList, text, resolver))
    else FilterTokenList(tokenList, text)
  }

  /** The state the dialog owns. */
  datatype DialogState = DialogState(searchText: string, candidates: seq<TokenInfo>)

  /** The state when the component mounts. */
  const Initial := DialogState("", [])

  /** Replays the state setters among `effects`; callback calls leave the state alone. */
  function Apply(s: DialogState, effects: seq<Effect>): DialogState
    decreases |effects|
  {
    if effects == [] then s
    else
      var next := match effects[0]
        case SetSearchText(t) => s.(searchText := t)
        case SetCandidates(l) => s.(candidates := l)
        case Select(_) => s
        case Close => s;
      Apply(next, effects[1..])
  }

  /** The calls made to the caller's `select` and `close` callbacks, in order. */
  function Callbacks(effects: seq<Effect>): (r: seq<Effect>)
    ensures |r| <= |effects|
    ensures forall e :: e in r ==> e in effects && (e.Select? || e == Close)
  {
    if effects == [] then []
    else if effects[0].Select? || effects[0] == Close then [effects[0]] + Callbacks(effects[1..])
    else Callbacks(effects[1..])
  }

  /**
   `onSearchTextChange`: records the event's text (`""` when the event has
   none), then sets the candidates the dispatch settles on.
   */
  function OnSearchTextChange(
    network: Network, eventValue: Option<string>,
    eth: seq<TokenInfo>, gravityBridge: seq<TokenInfo>,
    resolver: ResolverOutcome
  ): seq<Effect> {
    var text := eventValue.GetOr("");
    [SetSearchText(text), SetCandidates(ComputeCandidates(network, text, eth, gravityBridge, resolver))]
  }

  /** `onTokenSelect`: tells the caller which token was picked, then asks it to close. */
  function OnTokenSelect(token: TokenInfo): seq<Effect> {
    [Select(token), Close]
  }

  /** `onClose`: clears the search text, then asks the caller to close. */
  function OnClose(): seq<Effect> {
    [SetSearchText(""), Close]
  }

  /** The delayed re-seed run when the network or either list changes. */
  function Reseed(network: Network, eth: seq<TokenInfo>, gravityBridge: seq<TokenInfo>): seq<Effect> {
    [SetCandidateByNetwork(network, eth, gravityBridge)]
  }

  // ---------------------------------------------------------------------
  // Properties of the keystroke dispatch

  /** Empty text shows exactly the active network's list, whatever the resolver. */
  lemma EmptyTextShowsActiveList(
    network: Network, eth: seq<TokenInfo>, gravityBridge: seq<TokenInfo>, resolver: ResolverOutcome)
    ensures ComputeCandidates(network, "", eth, gravityBridge, resolver) ==
      (match network
       case Eth => eth
       case GravityBridge => gravityBridge
       case Unsupported => [])
  {
  }

  /**
   Address-shaped text with a list hit yields exactly the first token with
   that address, and the resolver's answer plays no part.
   */
  lemma AddressHitIgnoresResolver(
    network: Network, text: string, eth: seq<TokenInfo>, gravityBridge: seq<TokenInfo>,
    resolver: ResolverOutcome, i: int)
    requires IsEthAddress(text)
    requires IsFirstWithAddress(GetCandidateByNetwork(network, eth, gravityBridge), text, i)
    ensures ComputeCandidates(network, text, eth, gravityBridge, resolver) ==
      [GetCandidateByNetwork(network, eth, gravityBridge)[i]]
  {
  }

  /**
   Address-shaped text with no list hit takes the resolver's answer: a
   found token becomes the only candidate, absence or failure gives none.
   */
  lemma AddressMissUsesResolver(
    network: Network, text: string, eth: seq<TokenInfo>, gravityBridge: seq<TokenInfo>,
    resolver: ResolverOutcome)
    requires IsEthAddress(text)
    requires forall t :: t in GetCandidateByNetwork(network, eth, gravityBridge) ==> t.address != text
    ensures ComputeCandidates(network, text, eth, gravityBridge, resolver) ==
      (match resolver
       case Found(t) => [t]
       case Absent => []
       case Failed => [])
  {
  }

  /**
   For any other non-empty text every candidate comes from the active list
   and matches, and every active-list token that matches is a candidate.
   */
  lemma TextSearchKeepsExactlyMatches(
    network: Network, text: string, eth: seq<TokenInfo>, gravityBridge: seq<TokenInfo>,
    resolver: ResolverOutcome, t: TokenInfo)
    requires text != "" && !IsEthAddress(text)
    ensures t in ComputeCandidates(network, text, eth, gravityBridge, resolver) <==>
      t in GetCandidateByNetwork(network, eth, gravityBridge) &&
      (Includes(Lower(t.name), Lower(text)) || Includes(Lower(t.symbol), Lower(text)))
  {
    FilterMembership(GetCandidateByNetwork(network, eth, gravityBridge), text, t);
  }

  // ---------------------------------------------------------------------
  // Properties of the handlers

  /**
   After a keystroke the search field shows the typed text and the
   candidates are those the dispatch settles on.
   */
  lemma KeystrokeSetsTextAndCandidates(
    s: DialogState, network: Network, eventValue: Option<string>,
    eth: seq<TokenInfo>, gravityBridge: seq<TokenInfo>, resolver: ResolverOutcome)
    ensures Apply(s, OnSearchTextChange(network, eventValue, eth, gravityBridge, resolver)) ==
      DialogState(eventValue.GetOr(""),
                  ComputeCandidates(network, eventValue.GetOr(""), eth, gravityBridge, resolver))
    ensures Callbacks(OnSearchTextChange(network, eventValue, eth, gravityBridge, resolver)) == []
  {
    var text := eventValue.GetOr("");
    var effects := OnSearchTextChange(network, eventValue, eth, gravityBridge, resolver);
    var s1 := s.(searchText := text);
    var s2 := s1.(candidates := ComputeCandidates(network, text, eth, gravityBridge, resolver));
    assert effects[1..][1..] == [];
    assert Apply(s, effects) == Apply(s1, effects[1..]);
    assert Apply(s1, effects[1..]) == Apply(s2, []);
    assert Callbacks(effects[1..][1..]) == [];
  }

  /**
   Picking a token calls `select` with that token and then `close`, once
   each, and leaves the search text and the candidates as they were.
   */
  lemma SelectCallsSelectThenClose(s: DialogState, token: TokenInfo)
    ensures Callbacks(OnTokenSelect(token)) == [Select(token), Close]
    ensures Apply(s, OnTokenSelect(token)) == s
  {
    var effects := OnTokenSelect(token);
    assert effects[1..] == [Close] && effects[1..][1..] == [];
    assert Apply(s, effects) == Apply(s, effects[1..]) == Apply(s, []);
  }

  /**
   Dismissal clears the search text before `close` is called, calls only
   `close`, and leaves the candidates as they were.
   */
  lemma DismissClearsTextBeforeClose(s: DialogState)
    ensures OnClose()[0] == SetSearchText("") && OnClose()[|OnClose()| - 1] == Close
    ensures Callbacks(OnClose()) == [Close]
    ensures Apply(s, OnClose()).searchText == ""
    ensures Apply(s, OnClose()).candidates == s.candidates
  {
  }

  /** The re-seed sets the candidates to the active list and nothing else. */
  lemma ReseedShowsActiveList(s: DialogState, network: Network, eth: seq<TokenInfo>, gravityBridge: seq<TokenInfo>)
    ensures Apply(s, Reseed(network, eth, gravityBridge)) ==
      s.(candidates := GetCandidateByNetwork(network, eth, gravityBridge))
    ensures Callbacks(Reseed(network, eth, gravityBridge)) == []
  {
  }
}
