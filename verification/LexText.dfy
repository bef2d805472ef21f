/** Facts about the functions of module LexSpec at a position of a text, for the loops of module Lexer. */
module LexText {
  import opened Basics
  import L = LexSpec

  lemma Shift(t: bytes, k: nat)
    requires k < |t|
    ensures t[k..][0] == t[k] && t[k..][1..] == t[k + 1..]
  {
  }

  lemma DigitsFrom(t: bytes, k: nat)
    requires k <= |t|
    ensures L.DigitRun(t[k..]) == if k < |t| && L.IsDigit(t[k]) then 1 + L.DigitRun(t[k + 1..]) else 0
  {
    if k < |t| {
      Shift(t, k);
    }
  }

  lemma IntPartAt(t: bytes, base: nat)
    requires base < |t|
    ensures var p := if t[base] == MINUS then base + 1 else base;
      L.IntPart(t[base..]) ==
      if p < |t| && t[p] == ZERO then
        if p + 1 < |t| && L.IsDigit(t[p + 1]) then None else Some(p + 1 - base)
      else if p < |t| && L.IsDigit(t[p]) then Some(p - base + L.DigitRun(t[p..]))
      else None
  {
    var p := if t[base] == MINUS then base + 1 else base;
    var s := t[base..];
    assert s[0] == t[base] && s[p - base..] == t[p..];
    assert p < |t| ==> s[p - base] == t[p];
    assert p + 1 < |t| ==> s[p - base + 1] == t[p + 1];
  }

  lemma ExpPartAt(t: bytes, k: nat)
    requires k <= |t|
    ensures k == |t| || (t[k] != UPPER_E && t[k] != LOWER_E) ==> L.ExpPart(t[k..]) == Some(0)
    ensures k < |t| && (t[k] == UPPER_E || t[k] == LOWER_E) ==>
      var n := if k + 1 < |t| && (t[k + 1] == PLUS || t[k + 1] == MINUS) then k + 2 else k + 1;
      var d := L.DigitRun(t[n..]);
      && L.ExpPart(t[k..]) == (if d == 0 then None else Some(n - k + d))
      && (d > 0 <==> n < |t| && L.IsDigit(t[n]))
  {
    if k < |t| {
      var n := if k + 1 < |t| && (t[k + 1] == PLUS || t[k + 1] == MINUS) then k + 2 else k + 1;
      Shift(t, k);
      assert k + 1 < |t| ==> t[k..][1] == t[k + 1];
      assert t[k..][n - k..] == t[n..];
    }
  }

  /** The length of the character or escape at k inside a string, None where the first pass stops with an error. */
  function Step(t: bytes, k: nat): (w: Option<nat>)
    requires k <= |t|
    ensures w.Some? ==> 1 <= w.value && k + w.value <= |t|
  {
    if k == |t| || t[k] <= 0x1F then None
    else if t[k] != BACKSLASH then Some(1)
    else if k + 1 < |t| && t[k + 1] == LOWER_U then if L.FourHex(t[k + 2..]) then Some(6) else None
    else if k + 1 < |t| && L.Unescape(t[k + 1]).Some? then Some(2)
    else None
  }

  lemma FirstPassAt(t: bytes, k: nat)
    requires k <= |t|
    ensures k < |t| && t[k] == QUOTE ==> L.FirstPass(t[k..]) == Some(1)
    ensures k == |t| || t[k] != QUOTE ==>
      L.FirstPass(t[k..]) == match Step(t, k) case None => None case Some(w) => L.More(w, L.FirstPass(t[k + w..]))
  {
    if k < |t| {
      Shift(t, k);
      assert k + 1 < |t| ==> t[k..][1] == t[k + 1] && t[k..][2..] == t[k + 2..];
      assert k + 6 <= |t| ==> t[k..][6..] == t[k + 6..];
    }
  }

  lemma AlphaFrom(t: bytes, k: nat)
    requires k <= |t|
    ensures L.AlphaRun(t[k..]) == if k < |t| && L.IsAlpha(t[k]) then 1 + L.AlphaRun(t[k + 1..]) else 0
  {
    if k < |t| {
      Shift(t, k);
    }
  }

  lemma WsFrom(t: bytes, k: nat)
    requires k <= |t|
    ensures L.WsRun(t[k..]) == if k < |t| && L.IsWs(t[k]) then 1 + L.WsRun(t[k + 1..]) else 0
  {
    if k < |t| {
      Shift(t, k);
    }
  }
}
