/** Random join codes: each character is drawn from a 32-letter alphabet
    without the easily confused I, O, 0 and 1. A draw is the value of one
    `Math.random()` call, a real in [0, 1). */
module Codes {

  const ALPHABET: string := "ABCDEFGHJKLMNPQRSTUVWXYZ23456789"

  predicate IsDraw(r: real) {
    0.0 <= r < 1.0
  }

  predicate ValidDraws(draws: seq<real>) {
    forall i :: 0 <= i < |draws| ==> IsDraw(draws[i])
  }

  /** `Math.floor(draw * chars.length)`. */
  function DrawIndex(r: real): (k: nat)
    requires IsDraw(r)
    ensures k < |ALPHABET|
  {
    (r * 32.0).Floor
  }

  /** The code spelled by a sequence of draws, one character per draw. */
  function CodeOf(draws: seq<real>): (code: string)
    requires ValidDraws(draws)
    ensures |code| == |draws|
    ensures forall i :: 0 <= i < |code| ==> code[i] in ALPHABET
  {
    seq(|draws|, i requires 0 <= i < |draws| => ALPHABET[DrawIndex(draws[i])])
  }

  /** No code contains a character that reads like another one. */
  lemma CodeUnambiguous(draws: seq<real>)
    requires ValidDraws(draws)
    ensures forall i :: 0 <= i < |draws| ==> CodeOf(draws)[i] !in "IO01"
  {
    forall i | 0 <= i < |draws| ensures CodeOf(draws)[i] !in "IO01" {
      var k := DrawIndex(draws[i]);
      assert CodeOf(draws)[i] == ALPHABET[k];
      assert ALPHABET[k] !in "IO01" by {
        assert forall j :: 0 <= j < |ALPHABET| ==> ALPHABET[j] !in "IO01";
      }
    }
  }

  /** The draw at the middle of the interval that selects alphabet position `k`. */
  function DrawFor(k: nat): (r: real)
    requires k < |ALPHABET|
    ensures IsDraw(r)
  {
    (2 * k + 1) as real / 64.0
  }

  lemma DrawForIndex(k: nat)
    requires k < |ALPHABET|
    ensures DrawIndex(DrawFor(k)) == k
  {
    assert DrawFor(k) * 32.0 == k as real + 0.5;
  }

  /** Every code over the alphabet is drawn by some sequence of draws. */
  lemma EveryCodeDrawable(code: string)
    requires forall i :: 0 <= i < |code| ==> code[i] in ALPHABET
    ensures exists draws :: ValidDraws(draws) && CodeOf(draws) == code
  {
    var draws := seq(|code|, i requires 0 <= i < |code| =>
      var k :| 0 <= k < |ALPHABET| && ALPHABET[k] == code[i]; DrawFor(k));
    forall i | 0 <= i < |code| ensures CodeOf(draws)[i] == code[i] {
      var k :| 0 <= k < |ALPHABET| && ALPHABET[k] == code[i] && draws[i] == DrawFor(k);
      DrawForIndex(k);
    }
    assert CodeOf(draws) == code;
  }

  /** Append one drawn character per draw, as the source's `for` loop does. */
  method Generate(draws: seq<real>) returns (code: string)
    requires ValidDraws(draws)
    ensures code == CodeOf(draws)
  {
    code := "";
    for i := 0 to |draws|
      invariant code == CodeOf(draws[..i])
    {
      assert draws[..i + 1] == draws[..i] + [draws[i]];
      code := code + [ALPHABET[DrawIndex(draws[i])]];
    }
    assert draws[..|draws|] == draws;
  }

  /** The code of the first attempt whose code `taken` does not hold for:
      what a draw-until-unused loop settles on. */
  function FirstFresh(attempts: seq<seq<real>>, taken: string -> bool): (code: string)
    requires forall k :: 0 <= k < |attempts| ==> ValidDraws(attempts[k])
    requires exists k :: 0 <= k < |attempts| && !taken(CodeOf(attempts[k]))
    ensures !taken(code)
    ensures exists k :: 0 <= k < |attempts| && code == CodeOf(attempts[k])
                         && forall j :: 0 <= j < k ==> taken(CodeOf(attempts[j]))
  {
    if !taken(CodeOf(attempts[0])) then CodeOf(attempts[0])
    else
      var k :| 0 <= k < |attempts| && !taken(CodeOf(attempts[k]));
      assert 0 <= k - 1 < |attempts[1..]| && attempts[1..][k - 1] == attempts[k];
      var c := FirstFresh(attempts[1..], taken);
      ghost var k' :| 0 <= k' < |attempts[1..]| && c == CodeOf(attempts[1..][k'])
                      && forall j :: 0 <= j < k' ==> taken(CodeOf(attempts[1..][j]));
      assert c == CodeOf(attempts[k' + 1]);
      assert forall j :: 1 <= j < k' + 1 ==> attempts[j] == attempts[1..][j - 1];
      c
  }

  /** Draw codes attempt by attempt until one is not taken. The source loops
      without bound; here the attempts are a finite supply that is required
      to contain an untaken code, so the model covers exactly the runs that
      terminate. */
  method DrawUntilFresh(attempts: seq<seq<real>>, taken: string -> bool) returns (code: string)
    requires forall k :: 0 <= k < |attempts| ==> ValidDraws(attempts[k])
    requires exists k :: 0 <= k < |attempts| && !taken(CodeOf(attempts[k]))
    ensures code == FirstFresh(attempts, taken)
  {
    var k := 0;
    code := Generate(attempts[0]);
    while taken(code)
      invariant 0 <= k < |attempts|
      invariant code == CodeOf(attempts[k])
      invariant exists j :: 0 <= j < |attempts[k..]| && !taken(CodeOf(attempts[k..][j]))
      invariant FirstFresh(attempts[k..], taken) == FirstFresh(attempts, taken)
      decreases |attempts| - k
    {
      assert attempts[k..][1..] == attempts[k + 1..];
      ghost var j :| 0 <= j < |attempts[k..]| && !taken(CodeOf(attempts[k..][j]));
      assert j != 0 && attempts[k + 1..][j - 1] == attempts[k..][j];
      k := k + 1;
      code := Generate(attempts[k]);
    }
    assert attempts[k..][0] == attempts[k];
  }
}
