/**
 Concrete inputs: a worked search over a one-token list, and the two
 inputs on which the component's own dismissal and re-seed leave the
 candidates out of step with the search text.
 */
module Scenarios {
  import opened Text
  import opened Tokens
  import opened Address
  import opened TokenFilter
  import opened TokenSearch
  import opened DialogSession

  /** `0x` followed by forty copies of `digit`. */
  function RepeatedAddress(digit: char): string {
    "0x" + seq(40, _ => digit)
  }

  lemma RepeatedAddressIsAddress(digit: char)
    requires IsHexDigit(digit)
    ensures IsEthAddress(RepeatedAddress(digit))
  {
    var s := RepeatedAddress(digit);
    assert s[..2] == "0x";
    IsEthAddressIff(s);
  }

  function Ether(): TokenInfo {
    TokenInfo(RepeatedAddress('a'), "ETH", "Ether", None)
  }

  /** Lower-casing leaves a string without ASCII capitals as it is. */
  lemma LowerWithoutCapitals(s: string)
    requires forall i :: 0 <= i < |s| ==> !IsAsciiUpper(s[i])
    ensures Lower(s) == s
  {
  }

  lemma EtherLowerCased()
    ensures Lower(Ether().name) == "ether" && Lower(Ether().symbol) == "eth"
  {
    assert Lower("Ether")[0] == 'e';
    LowerWithoutCapitals("ther");
    assert Lower("Ether") == "e" + Lower("ther");
    assert Lower("ETH") == [LowerChar('E'), LowerChar('T'), LowerChar('H')];
  }

  /** With the list [Ether], "eth" finds Ether by its symbol; on the other network it finds nothing. */
  lemma EtherBySymbol(resolver: ResolverOutcome)
    ensures ComputeCandidates(Eth, "eth", [Ether()], [], resolver) == [Ether()]
    ensures ComputeCandidates(GravityBridge, "eth", [Ether()], [], resolver) == []
  {
    assert !IsEthAddress("eth");
    EtherLowerCased();
    LowerWithoutCapitals("eth");
    assert Includes("eth", "eth");
    assert Matches(Ether(), "eth");
    assert FilterTokenList([Ether()], "eth") == [Ether()];
  }

  lemma XyzNotInEther()
    ensures !Includes("ether", "xyz") && !Includes("eth", "xyz")
  {
    FirstCharAbsentNotIncluded("ether", "xyz");
    FirstCharAbsentNotIncluded("eth", "xyz");
  }

  /** With the list [Ether], "xyz" matches neither field. */
  lemma EtherNotByOtherText(resolver: ResolverOutcome)
    ensures ComputeCandidates(Eth, "xyz", [Ether()], [], resolver) == []
  {
    assert !IsEthAddress("xyz");
    EtherLowerCased();
    LowerWithoutCapitals("xyz");
    XyzNotInEther();
    assert !Matches(Ether(), "xyz");
    assert FilterTokenList([Ether()], "xyz") == [];
  }

  /** Ether's own address finds it in the list, whatever the resolver would say. */
  lemma EtherByAddress(resolver: ResolverOutcome)
    ensures ComputeCandidates(Eth, RepeatedAddress('a'), [Ether()], [], resolver) == [Ether()]
  {
    RepeatedAddressIsAddress('a');
    assert FindInList([Ether()], RepeatedAddress('a')) == Some(Ether());
  }

  /**
   The lookup compares addresses exactly: Ether's address in capitals
   misses the list, so a failing resolver leaves no candidate.
   */
  lemma EtherCapitalAddressMissesList()
    ensures ComputeCandidates(Eth, RepeatedAddress('A'), [Ether()], [], Failed) == []
  {
    RepeatedAddressIsAddress('A');
    assert RepeatedAddress('A')[2] != RepeatedAddress('a')[2];
    assert FindInList([Ether()], RepeatedAddress('A')) == None;
  }

  /** A token that "z" does not match. */
  function Plain(): TokenInfo {
    TokenInfo("0x1", "B", "A", None)
  }

  lemma PlainMissesZ()
    ensures !IsEthAddress("z")
    ensures !Matches(Plain(), "z")
    ensures FilterTokenList([Plain()], "z") == []
  {
    assert Lower("A") == "a" && Lower("B") == "b" && Lower("z") == "z";
    FirstCharAbsentNotIncluded("a", "z");
    FirstCharAbsentNotIncluded("b", "z");
  }

  /**
   The component's dismissal on input: list [Plain], text "z", no
   candidates. Before it the dialog is consistent; after it the field is
   empty but the candidates are still [], not the whole list.
   */
  lemma DismissLeavesStaleCandidates()
    ensures Consistent(DialogState("z", []), Eth, [Plain()], [])
    ensures Apply(DialogState("z", []), OnClose()) == DialogState("", [])
    ensures !Consistent(Apply(DialogState("z", []), OnClose()), Eth, [Plain()], [])
  {
    PlainMissesZ();
    assert ComputeCandidates(Eth, "z", [Plain()], [], Absent) == [];
    DismissClearsTextBeforeClose(DialogState("z", []));
  }

  /**
   The component's re-seed on input: text "z" typed while the list was
   still empty, then the list [Plain] arrives. The candidates become
   [Plain] while the field still shows "z", which [Plain] does not match.
   */
  lemma ReseedIgnoresText()
    ensures Consistent(DialogState("z", []), Eth, [], [])
    ensures Apply(DialogState("z", []), Reseed(Eth, [Plain()], [])) == DialogState("z", [Plain()])
    ensures !Consistent(Apply(DialogState("z", []), Reseed(Eth, [Plain()], [])), Eth, [Plain()], [])
  {
    PlainMissesZ();
    assert ComputeCandidates(Eth, "z", [], [], Absent) == [];
    ReseedShowsActiveList(DialogState("z", []), Eth, [Plain()], []);
  }
}
