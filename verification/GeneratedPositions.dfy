/**
 Positions in generated code: lines from 1, columns from 0, as `toStringWithSourceMap` counts them,
 defaults/JSXTransformer.js:11632-11639.
 */
module GeneratedPositions {
  datatype Position = Position(line: int, column: int)

  const FIRST := Position(1, 0)

  predicate Before(p: Position, q: Position) {
    p.line < q.line || (p.line == q.line && p.column < q.column)
  }

  function Next(p: Position, c: char): (q: Position)
    ensures Before(p, q)
  {
    if c == '\n' then Position(p.line + 1, 0) else p.(column := p.column + 1)
  }

  /** The position behind the text, if it starts at p. */
  function After(text: string, p: Position): (q: Position)
    ensures q == p || Before(p, q)
    ensures text != "" ==> Before(p, q)
    ensures p.line > 0 && p.column >= 0 ==> q.line > 0 && q.column >= 0
  {
    if text == "" then p else After(text[1..], Next(p, text[0]))
  }

  lemma {:induction false} AfterConcat(a: string, b: string, p: Position)
    ensures After(a + b, p) == After(b, After(a, p))
  {
    if a == "" {
      assert a + b == b;
    } else {
      assert (a + b)[1..] == a[1..] + b;
      AfterConcat(a[1..], b, Next(p, a[0]));
    }
  }

  /** The position of the k-th character. */
  function PositionOf(code: string, k: nat): Position
    requires k <= |code|
  {
    After(code[..k], FIRST)
  }

  /** The line counts the line breaks before the character, and the column the characters since the last one. */
  lemma {:induction false} PositionIs(code: string, k: nat)
    requires k <= |code|
    ensures var p := PositionOf(code, k);
      && p.line == 1 + multiset(code[..k])['\n']
      && 0 <= p.column <= k
      && (forall i | k - p.column <= i < k :: code[i] != '\n')
      && (p.column < k ==> code[k - p.column - 1] == '\n')
    decreases k
  {
    if k > 0 {
      PositionIs(code, k - 1);
      assert code[..k] == code[..k - 1] + [code[k - 1]];
      AfterConcat(code[..k - 1], [code[k - 1]], FIRST);
      OneCharacter(code[k - 1], PositionOf(code, k - 1));
    }
  }

  lemma OneCharacter(c: char, p: Position)
    ensures After([c], p) == if c == '\n' then Position(p.line + 1, 0) else Position(p.line, p.column + 1)
  {
    assert [c][1..] == "";
  }

  /** Later characters have later positions. */
  lemma PositionsIncrease(code: string, j: nat, k: nat)
    requires j <= k <= |code|
    ensures PositionOf(code, j) == PositionOf(code, k) <==> j == k
    ensures j < k ==> Before(PositionOf(code, j), PositionOf(code, k))
  {
    assert code[..k] == code[..j] + code[j..k];
    AfterConcat(code[..j], code[j..k], FIRST);
  }

  /** Text behind a character does not move it. */
  lemma PositionStays(code: string, more: string, k: nat)
    requires k <= |code|
    ensures PositionOf(code + more, k) == PositionOf(code, k)
  {
    assert (code + more)[..k] == code[..k];
  }
}
