/**
 Cutting code into lines and columns, as `fromStringWithSourceMap` does with `split`, `shift`, `substr` and
 `join`: defaults/JSXTransformer.js:11334-11400.
 */
module CodeLines {
  import opened GeneratedPositions

  /** `split('\n')`. */
  function Lines(code: string): (lines: seq<string>)
    ensures lines != []
  {
    if code == "" then [""]
    else if code[0] == '\n' then [""] + Lines(code[1..])
    else
      var rest := Lines(code[1..]);
      [[code[0]] + rest[0]] + rest[1..]
  }

  /** `join('\n')`. */
  function Join(lines: seq<string>): string {
    if lines == [] then "" else if |lines| == 1 then lines[0] else lines[0] + "\n" + Join(lines[1..])
  }

  lemma JoinBroken(lines: seq<string>)
    requires lines != []
    ensures Join([""] + lines) == "\n" + Join(lines)
  {
    assert ([""] + lines)[1..] == lines;
  }

  lemma JoinLonger(c: char, lines: seq<string>)
    requires lines != []
    ensures Join([[c] + lines[0]] + lines[1..]) == [c] + Join(lines)
  {
    var longer := [[c] + lines[0]] + lines[1..];
    assert longer[1..] == lines[1..];
    if |lines| > 1 {
      assert [c] + lines[0] + "\n" + Join(lines[1..]) == [c] + (lines[0] + "\n" + Join(lines[1..]));
    }
  }

  lemma {:induction false} JoinLines(code: string)
    ensures Join(Lines(code)) == code
  {
    if code != "" {
      JoinLines(code[1..]);
      if code[0] == '\n' {
        JoinBroken(Lines(code[1..]));
      } else {
        JoinLonger(code[0], Lines(code[1..]));
      }
    }
  }

  /** The value of `lines.shift()` as text: without lines, that of `undefined`. */
  function First(lines: seq<string>): string {
    if lines == [] then "undefined" else lines[0]
  }

  function Rest(lines: seq<string>): seq<string> {
    if lines == [] then [] else lines[1..]
  }

  /** Lines are what stands between line breaks. */
  lemma {:induction false} LinesHaveNoBreaks(code: string, i: nat)
    requires i < |Lines(code)|
    ensures '\n' !in Lines(code)[i]
  {
    if code != "" {
      if code[0] == '\n' {
        if i > 0 {
          LinesHaveNoBreaks(code[1..], i - 1);
        }
      } else {
        LinesHaveNoBreaks(code[1..], i);
      }
    }
  }

  /** The text of n lines with their line breaks. */
  function FullLines(lines: seq<string>, n: nat): string {
    if n == 0 then "" else First(lines) + "\n" + FullLines(Rest(lines), n - 1)
  }

  /** `substr(0, n)`. */
  function Prefix(line: string, n: int): string {
    if n <= 0 then "" else if n <= |line| then line[..n] else line
  }

  /** `substr(n)`; a negative n counts from the end. */
  function Suffix(line: string, n: int): string {
    if n > |line| then "" else if n >= 0 then line[n..] else if -n <= |line| then line[|line| + n..] else line
  }

  lemma PrefixAndSuffix(line: string, n: int)
    requires n >= 0
    ensures Prefix(line, n) + Suffix(line, n) == line
  {
  }

  function DropLines(lines: seq<string>, n: nat): (rest: seq<string>)
    ensures |rest| == if n < |lines| then |lines| - n else 0
    ensures n < |lines| ==> rest[0] == lines[n]
  {
    if n == 0 then lines else DropLines(Rest(lines), n - 1)
  }

  /** Lines and columns can be taken away one after the other. */
  lemma {:induction false} TakenApart(lines: seq<string>, n: nat, width: int)
    ensures Taken(lines, n, width) == FullLines(lines, n) + Taken(DropLines(lines, n), 0, width)
    ensures Remaining(lines, n, width) == Remaining(DropLines(lines, n), 0, width)
  {
    if n > 0 {
      TakenApart(Rest(lines), n - 1, width);
    }
  }

  lemma NothingTaken(lines: seq<string>)
    ensures Taken(lines, 0, 0) == "" && Remaining(lines, 0, 0) == lines
  {
  }

  /** The text of the first n lines and of some columns of the next one. */
  function Taken(lines: seq<string>, n: nat, width: int): string {
    if n > 0 then First(lines) + "\n" + Taken(Rest(lines), n - 1, width)
    else if lines == [] then "" else Prefix(lines[0], width)
  }

  /** The lines left when that text has been taken away. */
  function Remaining(lines: seq<string>, n: nat, width: int): seq<string> {
    if n > 0 then Remaining(Rest(lines), n - 1, width)
    else if lines == [] then [] else [Suffix(lines[0], width)] + lines[1..]
  }

  /** Taking text away from lines that there are loses nothing. */
  lemma {:induction false} TakingKeepsText(lines: seq<string>, n: nat, width: int)
    requires n < |lines| && width >= 0
    ensures Taken(lines, n, width) + Join(Remaining(lines, n, width)) == Join(lines)
    ensures |Remaining(lines, n, width)| == |lines| - n
  {
    if n == 0 {
      PrefixAndSuffix(lines[0], width);
      FirstJoined(Prefix(lines[0], width), Suffix(lines[0], width), lines[1..]);
      assert lines == [lines[0]] + lines[1..];
    } else {
      TakingKeepsText(lines[1..], n - 1, width);
      Regrouped(lines[0], "\n", Taken(lines[1..], n - 1, width), Join(Remaining(lines[1..], n - 1, width)));
    }
  }

  lemma Regrouped(a: string, b: string, c: string, d: string)
    ensures a + b + c + d == a + b + (c + d)
  {
  }

  lemma FirstJoined(a: string, b: string, lines: seq<string>)
    ensures a + Join([b] + lines) == Join([a + b] + lines)
  {
    assert ([b] + lines)[1..] == lines && ([a + b] + lines)[1..] == lines;
  }

  /** Taking away more lines than there are makes the text longer. */
  lemma {:induction false} TakingTooMuch(lines: seq<string>, n: nat, width: int)
    requires n >= |lines| && n > 0
    ensures |Taken(lines, n, width)| > |Join(lines)| && Remaining(lines, n, width) == []
  {
    if n > 1 {
      TakingTooMuch(Rest(lines), n - 1, width);
    }
  }

  /** How many lines lead from one line to a later one. */
  function LinesBetween(p: Position, q: Position): nat {
    if p.line < q.line then q.line - p.line else 0
  }

  /** How many columns are then to be taken. */
  function ColumnsBetween(p: Position, q: Position): int {
    if p.line < q.line then q.column else q.column - p.column
  }

  /** Taking what is between the positions takes this text and leaves these lines. */
  predicate Takes(lines: seq<string>, p: Position, q: Position, text: string, left: seq<string>) {
    var n, width := LinesBetween(p, q), ColumnsBetween(p, q);
    && width >= 0 && n < |lines|
    && Taken(lines, n, width) == text && Remaining(lines, n, width) == left
  }

  /** One character more in front. */
  lemma TakesOneMore(c: char, rest: seq<string>, p: Position, q: Position, text: string, left: seq<string>)
    requires rest != [] && !Before(q, Next(p, c)) && Takes(rest, Next(p, c), q, text, left)
    ensures Takes(if c == '\n' then [""] + rest else [[c] + rest[0]] + rest[1..], p, q, [c] + text, left)
  {
    if c == '\n' {
      OneLineMore(rest, LinesBetween(p, q), ColumnsBetween(p, q));
    } else {
      OneColumnMore(c, rest, LinesBetween(p, q), ColumnsBetween(Next(p, c), q));
    }
  }

  /** From one position in the code to a later one, exactly the code in between is taken away. */
  lemma {:induction false} TakingBetween(code: string, d: nat, p: Position)
    requires d <= |code|
    ensures Takes(Lines(code), p, After(code[..d], p), code[..d], Lines(code[d..]))
  {
    if d == 0 {
      assert code[d..] == code;
    } else {
      var c, later := code[0], code[1..];
      var q := After(code[..d], p);
      assert code[..d][1..] == later[..d - 1] && later[d - 1..] == code[d..];
      assert q == After(later[..d - 1], Next(p, c));
      TakingBetween(later, d - 1, Next(p, c));
      TakesOneMore(c, Lines(later), p, q, later[..d - 1], Lines(code[d..]));
      assert code[..d] == [c] + later[..d - 1];
    }
  }

  lemma OneLineMore(rest: seq<string>, n: nat, width: int)
    requires n > 0
    ensures Taken([""] + rest, n, width) == ['\n'] + Taken(rest, n - 1, width)
    ensures Remaining([""] + rest, n, width) == Remaining(rest, n - 1, width)
  {
    assert ([""] + rest)[1..] == rest;
  }

  lemma OneColumnMore(c: char, rest: seq<string>, n: nat, width: int)
    requires rest != [] && width >= 0
    ensures var lines, wider := [[c] + rest[0]] + rest[1..], if n == 0 then width + 1 else width;
      && Taken(lines, n, wider) == [c] + Taken(rest, n, width)
      && Remaining(lines, n, wider) == Remaining(rest, n, width)
  {
    var lines := [[c] + rest[0]] + rest[1..];
    if n > 0 {
      assert Rest(lines) == Rest(rest);
    } else {
      assert lines[1..] == rest[1..];
      if width <= |rest[0]| {
        assert lines[0][width + 1..] == rest[0][width..];
      }
    }
  }
}
