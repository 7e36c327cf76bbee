/** Class-token sets and the DOMTokenList operations the script calls
    (section 7.1 of the WHATWG DOM Standard). */
module Tokens {

  /** The class tokens of an element; membership only, no order. */
  type TokenSet = set<string>

  const Highlight: string := "highlight"
  const Hidden: string := "hidden"

  /** `classList.add(token)`: the token is present afterwards, nothing else moves. */
  function Add(tokens: TokenSet, token: string): (r: TokenSet)
    ensures token in r
    ensures r - {token} == tokens - {token}
  {
    tokens + {token}
  }

  /** `classList.remove(token)`: the token is absent afterwards, nothing else moves. */
  function Remove(tokens: TokenSet, token: string): (r: TokenSet)
    ensures token !in r
    ensures r - {token} == tokens - {token}
  {
    if token in tokens then tokens - {token} else tokens
  }

  /** `classList.toggle(token)` without the `force` argument: membership flips. */
  function Toggle(tokens: TokenSet, token: string): (r: TokenSet)
    ensures token in r <==> token !in tokens
    ensures r - {token} == tokens - {token}
  {
    if token in tokens then tokens - {token} else tokens + {token}
  }

  /** One DOMTokenList call with a fixed token, as a handler applies it. */
  datatype TokenOp = AddOp(token: string) | RemoveOp(token: string) | ToggleOp(token: string)

  function Apply(op: TokenOp, tokens: TokenSet): TokenSet
  {
    match op
    case AddOp(t) => Add(tokens, t)
    case RemoveOp(t) => Remove(tokens, t)
    case ToggleOp(t) => Toggle(tokens, t)
  }

  /** Toggling the same token twice gives back the original set. */
  lemma ToggleTwice(tokens: TokenSet, token: string)
    ensures Toggle(Toggle(tokens, token), token) == tokens
  {
    var once := Toggle(tokens, token);
    var twice := Toggle(once, token);
    assert token in twice <==> token in tokens;
    assert twice - {token} == tokens - {token};
    forall t | t in twice
      ensures t in tokens
    {
      if t != token { assert t in twice - {token}; }
    }
    forall t | t in tokens
      ensures t in twice
    {
      if t != token { assert t in tokens - {token}; }
    }
  }
}
