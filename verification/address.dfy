/**
 The address test of the token search: the regular expression
 `^0x[a-fA-F0-9]{40}$` (no flags), written as a sequence of single-character
 atoms matched against the whole input. The expression has neither
 alternation nor open repetition, so an anchored match is a position-wise
 match of equal length.
 */
module Address {
  import opened Text

  /** One regular-expression atom that consumes exactly one character. */
  datatype Atom =
    | Literal(c: char)
    | HexClass   // [a-fA-F0-9]

  predicate AtomAccepts(a: Atom, c: char) {
    match a
    case Literal(d) => c == d
    case HexClass => IsHexDigit(c)
  }

  /** Number of hexadecimal digits after the `0x` prefix. */
  const AddressDigits: nat := 40

  /** The atoms of `^0x[a-fA-F0-9]{40}$`, in order. */
  function AddressRegex(): (p: seq<Atom>)
    ensures |p| == 2 + AddressDigits
    ensures p[0] == Literal('0') && p[1] == Literal('x')
    ensures forall i :: 2 <= i < |p| ==> p[i] == HexClass
  {
    [Literal('0'), Literal('x')] + seq(AddressDigits, _ => HexClass)
  }

  /** Anchored match (`^…$`) of a sequence of one-character atoms. */
  function FullMatch(p: seq<Atom>, s: string): (r: bool)
    ensures r <==> |p| == |s| && forall i :: 0 <= i < |s| ==> AtomAccepts(p[i], s[i])
  {
    if p == [] || s == [] then p == [] && s == []
    else AtomAccepts(p[0], s[0]) && FullMatch(p[1..], s[1..])
  }

  /** `isEthAddress`: the whole text matches the address expression. */
  function IsEthAddress(s: string): bool {
    FullMatch(AddressRegex(), s)
  }

  /**
   Character-level reading of the expression: 42 characters, a literal `0`,
   a lower-case `x`, then forty hexadecimal digits of either case.
   */
  lemma IsEthAddressIff(s: string)
    ensures IsEthAddress(s) <==>
      && |s| == 42
      && s[..2] == "0x"
      && forall i :: 2 <= i < |s| ==> IsHexDigit(s[i])
  {
  }

  /**
   Any one digit of an address may be replaced by any hex digit, including
   the same letter in the other case, and the text stays an address. A
   checksum (EIP-55 mixed-case encoding) would reject most such changes, so
   there is none.
   */
  lemma AddressDigitsUnconstrained(s: string, i: int, c: char)
    requires IsEthAddress(s)
    requires 2 <= i < 42 && IsHexDigit(c)
    ensures IsEthAddress(s[i := c])
  {
    IsEthAddressIff(s);
    var t := s[i := c];
    assert t[..2] == s[..2];
    IsEthAddressIff(t);
  }

  /** The prefix is case-sensitive: `0X…` is never an address. */
  lemma UpperCasePrefixRejected(s: string)
    requires |s| >= 2 && s[1] == 'X'
    ensures !IsEthAddress(s)
  {
  }
}
