/** What an ADC stream says, token by token, whoever made it. */
module AdcMeaning {
  import opened Words
  import opened AdcSpec

  /** Bytes for themselves, or a copy from `d` back, in the two-byte or the three-byte form. */
  datatype Token = Plain(bytes: seq<Byte>) | Near(d: nat, n: nat) | Far(d: nat, n: nat)

  /** What the forms hold, after `before` bytes of text. */
  predicate Proper(t: Token, before: nat) {
    match t
    case Plain(bytes) => 1 <= |bytes| <= 128
    case Near(d, n) => 1 <= d <= 1024 && d <= before && 3 <= n <= 18
    case Far(d, n) => 1 <= d <= 65536 && d <= before && 4 <= n <= 67
  }

  /** The top bits of the first byte tell the forms apart; distances are written less one, high bits first. */
  function Wire(t: Token, before: nat): seq<Byte>
    requires Proper(t, before)
  {
    match t
    case Plain(bytes) => [127 + |bytes|] + bytes
    case Near(d, n) => [4 * (n - 3) + (d - 1) / 256, (d - 1) % 256]
    case Far(d, n) => [64 + (n - 4), (d - 1) / 256, (d - 1) % 256]
  }

  /** `t` adds `n` bytes to `s`, each the same as the one `d` before it. */
  predicate Continues(s: seq<Byte>, t: seq<Byte>, d: nat, n: nat) {
    |t| == |s| + n && s <= t && 1 <= d <= |s| && forall k :: |s| <= k < |t| ==> t[k] == t[k - d]
  }

  predicate Adds(s: seq<Byte>, t: seq<Byte>, token: Token) {
    match token
    case Plain(bytes) => t == s + bytes
    case Near(d, n) => Continues(s, t, d, n)
    case Far(d, n) => Continues(s, t, d, n)
  }

  /** The tokens of a text: `cuts[k]` is the text before token `k`, the last one the whole. */
  ghost predicate Tells(tokens: seq<Token>, cuts: seq<seq<Byte>>) {
    && |cuts| == |tokens| + 1 && cuts[0] == []
    && forall k :: 0 <= k < |tokens| ==> TellsAt(tokens, cuts, k)
  }

  ghost predicate TellsAt(tokens: seq<Token>, cuts: seq<seq<Byte>>, k: nat)
    requires k < |tokens| && |cuts| == |tokens| + 1
  {
    Proper(tokens[k], |cuts[k]|) && Adds(cuts[k], cuts[k + 1], tokens[k])
  }

  /** The bytes of the first `n` tokens. */
  ghost function AllWire(tokens: seq<Token>, cuts: seq<seq<Byte>>, n: nat): seq<Byte>
    requires Tells(tokens, cuts) && n <= |tokens|
  {
    if n == 0 then []
    else assert TellsAt(tokens, cuts, n - 1); AllWire(tokens, cuts, n - 1) + Wire(tokens[n - 1], |cuts[n - 1]|)
  }

  lemma OneToken(bytes: seq<Byte>, s: seq<Byte>, t: seq<Byte>, token: Token)
    requires Run(bytes) == Some(State(Tag, s)) && Proper(token, |s|) && Adds(s, t, token)
    ensures Run(bytes + Wire(token, |s|)) == Some(State(Tag, t))
  {
    hide Run;
    match token
    case Plain(lits) =>
      LiteralToken(bytes, s, lits);
    case Near(d, n) =>
      ShortMatch(bytes, s, d, n);
      assert Wire(token, |s|) == ShortToken(d, n);
      CopyRepeats(t, |s|, d, n);
      assert t[..|s|] == s && t[..|s| + n] == t;
    case Far(d, n) =>
      LongMatch(bytes, s, d, n);
      assert Wire(token, |s|) == LongToken(d, n);
      CopyRepeats(t, |s|, d, n);
      assert t[..|s|] == s && t[..|s| + n] == t;
  }

  /** The decoder makes of any tokens the text they tell. */
  lemma {:induction false} AnyTokens(tokens: seq<Token>, cuts: seq<seq<Byte>>, n: nat)
    requires Tells(tokens, cuts) && n <= |tokens|
    ensures Run(AllWire(tokens, cuts, n)) == Some(State(Tag, cuts[n]))
    decreases n
  {
    hide Run, Wire, Adds, Proper, Tells;
    TellsOne(tokens, cuts, n);
    if n == 0 {
      Nothing();
    } else {
      AnyTokens(tokens, cuts, n - 1);
      OneToken(AllWire(tokens, cuts, n - 1), cuts[n - 1], cuts[n], tokens[n - 1]);
    }
  }

  lemma Nothing()
    ensures Run([]) == Some(State(Tag, []))
  {
  }

  lemma TellsOne(tokens: seq<Token>, cuts: seq<seq<Byte>>, n: nat)
    requires Tells(tokens, cuts) && n <= |tokens|
    ensures |cuts| == |tokens| + 1 && cuts[0] == []
    ensures n > 0 ==> Proper(tokens[n - 1], |cuts[n - 1]|) && Adds(cuts[n - 1], cuts[n], tokens[n - 1])
  {
    if n > 0 {
      assert TellsAt(tokens, cuts, n - 1);
    }
  }

  /** A distance beyond the beginning of the text is refused, whichever form it is in. */
  lemma TooFar(bytes: seq<Byte>, s: seq<Byte>, tag: Byte, hi: Byte, lo: Byte)
    requires Run(bytes) == Some(State(Tag, s))
    ensures tag < 64 && tag % 4 * 256 + lo + 1 > |s| ==> Run((bytes + [tag]) + [lo]).None?
    ensures 64 <= tag < 128 && hi * 256 + lo + 1 > |s| ==> Run(((bytes + [tag]) + [hi]) + [lo]).None?
  {
    hide Run;
    RunMore(bytes, tag);
    RunMore(bytes + [tag], lo);
    RunMore(bytes + [tag], hi);
    RunMore((bytes + [tag]) + [hi], lo);
  }
}
