/** Bit masks accumulated token by token with `|=`. */
module Masks {
  import opened Common

  /** A flags or capability word, seen as the set of positions of its one-bits: `|` is union
      and `a & b` is intersection. */
  type Mask = set<nat>

  /** What a keyword chain makes of one token: the position of its bit, or None when no branch
      matches. */
  type Chain = string -> Option<nat>

  predicate Accepts(chain: Chain, toks: seq<string>) {
    forall t :: t in toks ==> chain(t).Some?
  }

  /** The bits that some token contributes: order and repetition of tokens play no part. */
  function Bits(chain: Chain, toks: seq<string>): Mask {
    set t | t in toks && chain(t).Some? :: chain(t).value
  }

  /** A chain's verdict on a whole list: one unmatched token fails all of it. */
  function ParseAll(chain: Chain, toks: seq<string>): Option<Mask> {
    if Accepts(chain, toks) then Some(Bits(chain, toks)) else None
  }

  /** What a token loop does from `mask` on: a strict loop gives up at the first token its
      chain does not match, a loose one passes over it. */
  function Loop(chain: Chain, strict: bool, mask: Mask, toks: seq<string>): Option<Mask>
    decreases |toks|
  {
    if toks == [] then Some(mask)
    else match chain(toks[0])
      case Some(b) => Loop(chain, strict, mask + {b}, toks[1..])
      case None => if strict then None else Loop(chain, strict, mask, toks[1..])
  }

  /** The loop adds the bits of all tokens; a strict one provided every token matches. */
  lemma {:induction false} LoopAddsBits(chain: Chain, strict: bool, mask: Mask, toks: seq<string>)
    ensures Loop(chain, strict, mask, toks) ==
            if strict && !Accepts(chain, toks) then None else Some(mask + Bits(chain, toks))
    decreases |toks|
  {
    if toks == [] {
      assert mask + Bits(chain, toks) == mask;
    } else {
      assert forall t :: t in toks <==> t == toks[0] || t in toks[1..];
      match chain(toks[0]) {
        case Some(b) =>
          LoopAddsBits(chain, strict, mask + {b}, toks[1..]);
          assert mask + Bits(chain, toks) == mask + {b} + Bits(chain, toks[1..]);
        case None =>
          LoopAddsBits(chain, strict, mask, toks[1..]);
          assert Bits(chain, toks) == Bits(chain, toks[1..]);
      }
    }
  }

  /** The mask of a concatenated list is the union of the masks. */
  lemma ParseConcat(chain: Chain, a: seq<string>, b: seq<string>)
    ensures ParseAll(chain, a + b) ==
            if ParseAll(chain, a).Some? && ParseAll(chain, b).Some?
            then Some(ParseAll(chain, a).value + ParseAll(chain, b).value) else None
  {
    assert forall t :: t in a + b <==> t in a || t in b;
    assert Bits(chain, a + b) == Bits(chain, a) + Bits(chain, b);
  }

  /** Lists with the same tokens, whatever their order and repetition, get the same verdict. */
  lemma ParseOfSet(chain: Chain, a: seq<string>, b: seq<string>)
    requires forall t :: t in a <==> t in b
    ensures ParseAll(chain, a) == ParseAll(chain, b)
  {
    assert Bits(chain, a) == Bits(chain, b);
  }
}
