/**
 `filterTokenList`: keeps, in list order, the tokens whose lower-cased name
 or symbol contains the lower-cased search text.
 */
module TokenFilter {
  import opened Text
  import opened Tokens

  /** The per-token predicate of the filter. */
  predicate Matches(t: TokenInfo, text: string) {
    var query := Lower(text);
    Includes(Lower(t.name), query) || Includes(Lower(t.symbol), query)
  }

  function FilterTokenList(list: seq<TokenInfo>, text: string): (r: seq<TokenInfo>)
    ensures |r| <= |list|
  {
    if list == [] then []
    else if Matches(list[0], text) then [list[0]] + FilterTokenList(list[1..], text)
    else FilterTokenList(list[1..], text)
  }

  /**
   A token is in the filter result exactly when it is in the list and
   matches; every token the filter drops matches neither field.
   */
  lemma {:induction false} FilterMembership(list: seq<TokenInfo>, text: string, t: TokenInfo)
    ensures t in FilterTokenList(list, text) <==> t in list && Matches(t, text)
  {
    if list != [] {
      FilterMembership(list[1..], text, t);
      assert t in list <==> t == list[0] || t in list[1..];
    }
  }

  /** Adds one to every position. */
  function Shift(idx: seq<int>): (r: seq<int>)
    ensures |r| == |idx|
    ensures forall k :: 0 <= k < |idx| ==> r[k] == idx[k] + 1
  {
    seq(|idx|, k requires 0 <= k < |idx| => idx[k] + 1)
  }

  /** Positions of `list` whose token satisfies the filter predicate, ascending. */
  ghost function KeptPositions(list: seq<TokenInfo>, text: string): (r: seq<int>)
    ensures |r| <= |list|
    ensures forall k :: 0 <= k < |r| ==> 0 <= r[k] < |list|
    ensures forall k, l :: 0 <= k < l < |r| ==> r[k] < r[l]
  {
    if list == [] then []
    else
      var rest := Shift(KeptPositions(list[1..], text));
      if Matches(list[0], text) then [0] + rest else rest
  }

  /** Shifting moves membership up by one and never yields position 0. */
  lemma ShiftMembership(idx: seq<int>, i: int)
    requires forall k :: 0 <= k < |idx| ==> 0 <= idx[k]
    ensures i - 1 in idx <==> i in Shift(idx)
    ensures 0 !in Shift(idx)
  {
  }

  /**
   A position is kept if and only if its token matches. Together with
   `FilterTakesKeptPositions` and the contract of `KeptPositions`: the
   filter result is exactly the matching tokens in their original order,
   with nothing invented, reordered or duplicated.
   */
  lemma {:induction false} KeptPositionsExact(list: seq<TokenInfo>, text: string)
    ensures forall i :: 0 <= i < |list| ==>
      (Matches(list[i], text) <==> i in KeptPositions(list, text))
  {
    if list != [] {
      var tail := list[1..];
      KeptPositionsExact(tail, text);
      var sub := KeptPositions(tail, text);
      var rest := Shift(sub);
      var idx := KeptPositions(list, text);
      assert idx == if Matches(list[0], text) then [0] + rest else rest;
      forall i | 0 <= i < |list|
        ensures Matches(list[i], text) <==> i in idx
      {
        ShiftMembership(sub, i);
        if i > 0 {
          assert list[i] == tail[i - 1];
        }
      }
    }
  }

  /** The k-th kept token is the token at the k-th kept position. */
  lemma {:induction false} FilterTakesKeptPositions(list: seq<TokenInfo>, text: string)
    ensures |KeptPositions(list, text)| == |FilterTokenList(list, text)|
    ensures forall k :: 0 <= k < |KeptPositions(list, text)| ==>
      FilterTokenList(list, text)[k] == list[KeptPositions(list, text)[k]]
  {
    if list != [] {
      var tail := list[1..];
      FilterTakesKeptPositions(tail, text);
      var idx := KeptPositions(list, text);
      var sub := KeptPositions(tail, text);
      var r := FilterTokenList(list, text);
      var subR := FilterTokenList(tail, text);
      if Matches(list[0], text) {
        assert idx == [0] + Shift(sub) && r == [list[0]] + subR;
        forall k | 0 < k < |idx|
          ensures r[k] == list[idx[k]]
        {
          assert idx[k] == sub[k - 1] + 1;
          assert r[k] == subR[k - 1];
        }
      } else {
        assert idx == Shift(sub) && r == subR;
      }
    }
  }

  /** Filtering a concatenation filters each part. */
  lemma {:induction false} FilterAppend(a: seq<TokenInfo>, b: seq<TokenInfo>, text: string)
    ensures FilterTokenList(a + b, text) == FilterTokenList(a, text) + FilterTokenList(b, text)
  {
    if a == [] {
      assert a + b == b;
    } else {
      assert (a + b)[0] == a[0] && (a + b)[1..] == a[1..] + b;
      FilterAppend(a[1..], b, text);
    }
  }

  /** Filtering again with the same text changes nothing. */
  lemma {:induction false} FilterIdempotent(list: seq<TokenInfo>, text: string)
    ensures FilterTokenList(FilterTokenList(list, text), text) == FilterTokenList(list, text)
  {
    if list != [] {
      FilterIdempotent(list[1..], text);
      if Matches(list[0], text) {
        var r := FilterTokenList(list, text);
        assert r[0] == list[0] && r[1..] == FilterTokenList(list[1..], text);
      }
    }
  }

  /** The search text is compared without regard to ASCII case. */
  lemma {:induction false} FilterIgnoresQueryCase(list: seq<TokenInfo>, text: string)
    ensures FilterTokenList(list, text) == FilterTokenList(list, Lower(text))
  {
    LowerIdempotent(text);
    if list != [] {
      assert Matches(list[0], text) == Matches(list[0], Lower(text));
      FilterIgnoresQueryCase(list[1..], text);
    }
  }

  /** Empty text keeps every token. */
  lemma {:induction false} FilterEmptyTextKeepsAll(list: seq<TokenInfo>)
    ensures FilterTokenList(list, "") == list
  {
    if list != [] {
      IncludesEmpty(Lower(list[0].name));
      FilterEmptyTextKeepsAll(list[1..]);
    }
  }
}
