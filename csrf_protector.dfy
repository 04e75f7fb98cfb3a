/**
 * The registry of anti-forgery tokens: class CsrfProtector. The secure random
 * source is replaced by the bytes it would have produced, passed to Generate.
 */
module Csrfp {
  import opened Wrappers
  import Base64Url
  import TokenList

  type byte = Base64Url.byte

  /** Token length in random bytes when the constructor is not told one. */
  const DefaultEntropy: int := 32

  /** Capacity when the constructor is not told one. */
  const DefaultMaximum: int := 10

  /** The Java exceptions `generate` can raise. */
  datatype Exception =
    | NegativeArraySizeException  // `new byte[entropy]` with entropy < 0
    | NoSuchElementException      // `removeFirst` on an empty list whose maximum is 0

  class CsrfProtector {
    /** Default token length in bytes; final, so every getter call sees the same value. */
    const entropy: int
    /** Capacity of the registry; final as well. */
    const maximum: int
    /** Live tokens, front (most recently pushed) first. */
    var tokens: seq<string>

    /**
     * The capacity bound. Nothing checks the configuration, so a negative
     * maximum is accepted and then bounds nothing.
     */
    ghost predicate Valid()
      reads this
    {
      0 <= maximum ==> |tokens| <= maximum
    }

    constructor (entropy: int, maximum: int)
      ensures this.entropy == entropy && this.maximum == maximum
      ensures tokens == [] && Valid()
    {
      this.entropy := entropy;
      this.maximum := maximum;
      tokens := [];
    }

    constructor WithEntropy(entropy: int)
      ensures this.entropy == entropy && maximum == DefaultMaximum
      ensures tokens == [] && Valid()
    {
      this.entropy := entropy;
      maximum := DefaultMaximum;
      tokens := [];
    }

    constructor Default()
      ensures entropy == DefaultEntropy && maximum == DefaultMaximum
      ensures tokens == [] && Valid()
    {
      entropy := DefaultEntropy;
      maximum := DefaultMaximum;
      tokens := [];
    }

    /**
     * Encodes `entropy` random bytes as a token and registers it on the
     * front of the list, first dropping the front token when the list is full.
     */
    method Generate(entropy: int, random: seq<byte>) returns (r: Result<string, Exception>)
      requires Valid()
      requires 0 <= entropy ==> |random| == entropy
      modifies this`tokens
      ensures Valid()
      ensures r.Ok? <==> 0 <= entropy && maximum != 0
      ensures entropy < 0 ==> r == Err(NegativeArraySizeException)
      ensures 0 <= entropy && maximum == 0 ==> r == Err(NoSuchElementException)
      ensures r.Err? ==> tokens == old(tokens)
      ensures r.Ok? ==> r.value == Base64Url.Encode(random)
      ensures r.Ok? ==> Base64Url.Decode(r.value) == Some(random) && |random| == entropy
      ensures r.Ok? ==> tokens == TokenList.Admit(old(tokens), r.value, maximum)
      ensures r.Ok? && |old(tokens)| != maximum ==> tokens == [r.value] + old(tokens)
      ensures r.Ok? && |old(tokens)| == maximum ==> tokens == [r.value] + old(tokens)[1..]
    {
      if entropy < 0 {
        return Err(NegativeArraySizeException);
      }
      var token := Base64Url.Encode(random);
      Base64Url.DecodeEncode(random);
      if |tokens| == maximum {
        if tokens == [] {
          return Err(NoSuchElementException);
        }
        tokens := tokens[1..];
      }
      tokens := [token] + tokens;
      r := Ok(token);
    }

    /** Generate with the configured entropy. */
    method GenerateDefault(random: seq<byte>) returns (r: Result<string, Exception>)
      requires Valid()
      requires 0 <= entropy ==> |random| == entropy
      modifies this`tokens
      ensures Valid()
      ensures r.Ok? <==> 0 <= entropy && maximum != 0
      ensures entropy < 0 ==> r == Err(NegativeArraySizeException)
      ensures 0 <= entropy && maximum == 0 ==> r == Err(NoSuchElementException)
      ensures r.Err? ==> tokens == old(tokens)
      ensures r.Ok? ==> r.value == Base64Url.Encode(random)
      ensures r.Ok? ==> Base64Url.Decode(r.value) == Some(random) && |random| == entropy
      ensures r.Ok? ==> tokens == TokenList.Admit(old(tokens), r.value, maximum)
      ensures r.Ok? && |old(tokens)| != maximum ==> tokens == [r.value] + old(tokens)
      ensures r.Ok? && |old(tokens)| == maximum ==> tokens == [r.value] + old(tokens)[1..]
    {
      r := Generate(entropy, random);
    }

    /**
     * Scans the tokens front to back for one equal to token; when one is
     * found and remove is set, that occurrence alone is taken out.
     */
    method Verify(token: string, remove: bool) returns (found: bool)
      requires Valid()
      modifies this`tokens
      ensures Valid()
      ensures found <==> token in old(tokens)
      ensures tokens == if found && remove then TokenList.RemoveFirst(old(tokens), token) else old(tokens)
      ensures found && remove ==> |tokens| == |old(tokens)| - 1
    {
      var i := 0;
      while i < |tokens|
        invariant 0 <= i <= |tokens|
        invariant tokens == old(tokens)
        invariant forall j | 0 <= j < i :: tokens[j] != token
      {
        if tokens[i] == token {
          if remove {
            TokenList.RemoveFirstAt(tokens, token, i);
            tokens := tokens[..i] + tokens[i + 1..];
          }
          return true;
        }
        i := i + 1;
      }
      return false;
    }

    /** Verify that consumes the token. */
    method VerifyAndRemove(token: string) returns (found: bool)
      requires Valid()
      modifies this`tokens
      ensures Valid()
      ensures found <==> token in old(tokens)
      ensures tokens == TokenList.RemoveFirst(old(tokens), token)
    {
      found := Verify(token, true);
    }

    /** Number of registered tokens. */
    function Size(): (n: nat)
      reads this
      ensures Valid() && 0 <= maximum ==> n <= maximum
    {
      |tokens|
    }

    function IsEmpty(): (b: bool)
      reads this
      ensures b <==> Size() == 0
    {
      tokens == []
    }

    method Clear()
      modifies this`tokens
      ensures tokens == [] && Valid()
    {
      tokens := [];
    }
  }

  /**
   * A token registered once verifies once: the second of two consuming
   * verifications fails.
   */
  method VerifyTwice(p: CsrfProtector, token: string) returns (first: bool, second: bool)
    requires p.Valid() && multiset(p.tokens)[token] == 1
    modifies p`tokens
    ensures first && !second
    ensures p.tokens == TokenList.RemoveFirst(old(p.tokens), token)
  {
    TokenList.SingleUse(p.tokens, token);
    first := p.VerifyAndRemove(token);
    second := p.VerifyAndRemove(token);
  }

  /** After Clear the registry is empty and no token verifies. */
  method ClearRevokes(p: CsrfProtector, token: string) returns (valid: bool)
    modifies p`tokens
    ensures p.IsEmpty() && !valid
  {
    p.Clear();
    valid := p.Verify(token, false);
  }

  /**
   * A registry of capacity 3 fed four tokens made from distinct random bytes:
   * it stays at three tokens, the third one generated is evicted while the
   * first is still valid, and consuming the fourth leaves two.
   */
  method CapacityThree(r1: seq<byte>, r2: seq<byte>, r3: seq<byte>, r4: seq<byte>)
    returns (sizeFull: nat, thirdValid: bool, firstValid: bool, fourthValid: bool, sizeAfter: nat)
    requires |r1| == |r2| == |r3| == |r4| == DefaultEntropy
    requires r1 != r2 && r1 != r3 && r1 != r4 && r2 != r3 && r2 != r4 && r3 != r4
    ensures sizeFull == 3 && !thirdValid && firstValid && fourthValid && sizeAfter == 2
  {
    var p := new CsrfProtector(DefaultEntropy, 3);
    var g1 := p.GenerateDefault(r1);
    var g2 := p.GenerateDefault(r2);
    var g3 := p.GenerateDefault(r3);
    var g4 := p.GenerateDefault(r4);
    var t1, t2, t3, t4 := g1.value, g2.value, g3.value, g4.value;
    assert p.tokens == [t4, t2, t1];
    if t3 == t4 { Base64Url.EncodeInjective(r3, r4); }
    if t3 == t2 { Base64Url.EncodeInjective(r3, r2); }
    if t3 == t1 { Base64Url.EncodeInjective(r3, r1); }
    sizeFull := p.Size();
    thirdValid := p.Verify(t3, true);
    firstValid := p.Verify(t1, false);
    fourthValid := p.VerifyAndRemove(t4);
    sizeAfter := p.Size();
  }
}
