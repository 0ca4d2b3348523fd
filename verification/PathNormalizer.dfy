/**
 Resolving "." and ".." in a list of path segments: `normalizeArray`, defaults/JSXTransformer.js:2045-2070.
 */
module PathNormalizer {

  // ---------- from left to right ----------

  /** Walking a path: the segments that lead to where one is, after one more step. */
  function Step(stack: seq<string>, segment: string, allowAboveRoot: bool): seq<string> {
    if segment == "." then stack
    else if segment != ".." then stack + [segment]
    else if stack != [] && stack[|stack| - 1] != ".." then stack[..|stack| - 1]
    else if allowAboveRoot then stack + [".."]
    else stack
  }

  function Walk(stack: seq<string>, parts: seq<string>, allowAboveRoot: bool): seq<string>
    decreases |parts|
  {
    if parts == [] then stack else Walk(Step(stack, parts[0], allowAboveRoot), parts[1..], allowAboveRoot)
  }

  // ---------- from right to left ----------

  function Ups(n: nat): (ups: seq<string>)
    ensures |ups| == n && forall s <- ups :: s == ".."
  {
    seq(n, _ => "..")
  }

  predicate Plain(segment: string) {
    segment != "." && segment != ".."
  }

  /** Whatever comes before, walking the parts is walking up some steps and then some plain segments. */
  ghost predicate SameWalks(parts: seq<string>, up: nat, rest: seq<string>, allowAboveRoot: bool) {
    forall stack :: Walk(stack, parts, allowAboveRoot) == Walk(stack, Ups(up) + rest, allowAboveRoot)
  }

  lemma OneUpMore(up: nat, rest: seq<string>)
    ensures (Ups(up + 1) + rest)[1..] == Ups(up) + rest && (Ups(up + 1) + rest)[0] == ".."
  {
  }

  lemma WalkUpOne(stack: seq<string>, up: nat, rest: seq<string>, allowAboveRoot: bool)
    ensures Walk(stack, Ups(up + 1) + rest, allowAboveRoot)
         == Walk(Step(stack, "..", allowAboveRoot), Ups(up) + rest, allowAboveRoot)
  {
    OneUpMore(up, rest);
  }

  lemma WalkPlainOne(stack: seq<string>, part: string, rest: seq<string>, allowAboveRoot: bool)
    requires Plain(part)
    ensures Walk(stack, Ups(0) + ([part] + rest), allowAboveRoot) == Walk(stack + [part], Ups(0) + rest, allowAboveRoot)
  {
    assert Ups(0) + ([part] + rest) == [part] + rest && Ups(0) + rest == rest;
    assert ([part] + rest)[1..] == rest;
  }

  /** The steps up and the segments that stand for the parts once one more is put in front. */
  function InFront(part: string, up: nat, rest: seq<string>): (nat, seq<string>) {
    if part == "." then (up, rest)
    else if part == ".." then (up + 1, rest)
    else if up > 0 then (up - 1, rest)
    else (0, [part] + rest)
  }

  lemma WalkInFront(stack: seq<string>, part: string, up: nat, rest: seq<string>, allowAboveRoot: bool)
    ensures var (up', rest') := InFront(part, up, rest);
      Walk(Step(stack, part, allowAboveRoot), Ups(up) + rest, allowAboveRoot) ==
      Walk(stack, Ups(up') + rest', allowAboveRoot)
  {
    if part == ".." {
      WalkUpOne(stack, up, rest, allowAboveRoot);
    } else if part != "." {
      if up > 0 {
        WalkUpOne(stack + [part], up - 1, rest, allowAboveRoot);
        assert (stack + [part])[..|stack|] == stack;
      } else {
        WalkPlainOne(stack, part, rest, allowAboveRoot);
      }
    }
  }

  /** One more part in front. */
  lemma PartInFront(parts: seq<string>, part: string, up: nat, rest: seq<string>, allowAboveRoot: bool)
    requires SameWalks(parts, up, rest, allowAboveRoot)
    ensures var (up', rest') := InFront(part, up, rest);
      SameWalks([part] + parts, up', rest', allowAboveRoot)
  {
    assert ([part] + parts)[1..] == parts;
    var (up', rest') := InFront(part, up, rest);
    forall stack
      ensures Walk(stack, [part] + parts, allowAboveRoot) == Walk(stack, Ups(up') + rest', allowAboveRoot)
    {
      WalkInFront(stack, part, up, rest, allowAboveRoot);
    }
  }

  lemma {:induction false} WalkPlain(stack: seq<string>, rest: seq<string>, allowAboveRoot: bool)
    requires forall s <- rest :: Plain(s)
    ensures Walk(stack, rest, allowAboveRoot) == stack + rest
    decreases |rest|
  {
    if rest == [] {
      assert stack + rest == stack;
    } else {
      assert rest[0] in rest;
      assert Step(stack, rest[0], allowAboveRoot) == stack + [rest[0]];
      WalkPlain(stack + [rest[0]], rest[1..], allowAboveRoot);
      assert stack + [rest[0]] + rest[1..] == stack + rest;
    }
  }

  lemma {:induction false} WalkUp(n: nat, up: nat, rest: seq<string>, allowAboveRoot: bool)
    requires forall s <- rest :: Plain(s)
    ensures Walk(if allowAboveRoot then Ups(n) else [], Ups(up) + rest, allowAboveRoot)
         == (if allowAboveRoot then Ups(n + up) else []) + rest
    decreases up
  {
    if up == 0 {
      assert Ups(0) + rest == rest;
      WalkPlain(if allowAboveRoot then Ups(n) else [], rest, allowAboveRoot);
    } else {
      OneUpMore(up - 1, rest);
      assert Ups(n) + [".."] == Ups(n + 1);
      WalkUp(n + 1, up - 1, rest, allowAboveRoot);
    }
  }

  /** A list of segments that is changed in place. */
  class Parts {
    var segments: seq<string>

    constructor (segments: seq<string>)
      ensures this.segments == segments
    {
      this.segments := segments;
    }

    /** `splice(i, 1)`. */
    method Remove(i: nat)
      requires i < |segments|
      modifies this
      ensures segments == old(segments[..i] + segments[i + 1..])
    {
      segments := segments[..i] + segments[i + 1..];
    }

    /** Resolves the segments from right to left; returns how many steps up are left over. */
    method Resolve(ghost allowAboveRoot: bool) returns (up: nat)
      modifies this
      ensures (forall s <- segments :: Plain(s)) && SameWalks(old(segments), up, segments, allowAboveRoot)
    {
      up := 0;
      var i := |segments|;
      ghost var parts, rest := segments, [];
      assert parts[i..] == [] && segments == parts[..i] + rest && Ups(0) + [] == [];
      while i > 0
        invariant 0 <= i <= |parts| && segments == parts[..i] + rest
        invariant (forall s <- rest :: Plain(s)) && SameWalks(parts[i..], up, rest, allowAboveRoot)
      {
        i := i - 1;
        var last := segments[i];
        ghost var next := InFront(last, up, rest);
        PartInFront(parts[i + 1..], last, up, rest, allowAboveRoot);
        assert parts[i..] == [last] + parts[i + 1..];
        if last == "." {
          Remove(i);
        } else if last == ".." {
          Remove(i);
          up := up + 1;
        } else if up > 0 {
          Remove(i);
          up := up - 1;
        }
        rest := next.1;
      }
      assert parts[0..] == parts && parts[..0] + rest == rest;
    }

    /** Puts steps up in front. */
    method Restore(up: nat)
      modifies this
      ensures segments == Ups(up) + old(segments)
    {
      var left := up;
      assert Ups(0) + segments == segments;
      while left > 0
        invariant 0 <= left <= up && segments == Ups(up - left) + old(segments)
      {
        assert [".."] + Ups(up - left) == Ups(up - left + 1);
        segments := [".."] + segments;
        left := left - 1;
      }
    }

    /** Leaves the segments that walking the path from left to right leads to. */
    method NormalizeArray(allowAboveRoot: bool)
      modifies this
      ensures segments == Walk([], old(segments), allowAboveRoot)
    {
      var up := Resolve(allowAboveRoot);
      WalkUp(0, up, segments, allowAboveRoot);
      assert Ups(0) == [] && [] + segments == segments;
      if allowAboveRoot {
        Restore(up);
      }
    }
  }

  // ---------- what a path leads to, segment by segment ----------

  lemma {:induction false} WalkConcat(stack: seq<string>, a: seq<string>, b: seq<string>, allowAboveRoot: bool)
    ensures Walk(stack, a + b, allowAboveRoot) == Walk(Walk(stack, a, allowAboveRoot), b, allowAboveRoot)
    decreases |a|
  {
    if a == [] {
      assert a + b == b;
    } else {
      assert (a + b)[1..] == a[1..] + b;
      WalkConcat(Step(stack, a[0], allowAboveRoot), a[1..], b, allowAboveRoot);
    }
  }

  /**
   One segment more: "." leads nowhere; ".." leads back over the last segment, or where there is none to go back over,
   above the root if that is allowed; every other segment, the empty one too, is appended.
   */
  lemma OneSegmentMore(parts: seq<string>, segment: string, allowAboveRoot: bool)
    ensures Walk([], [], allowAboveRoot) == []
    ensures var before := Walk([], parts, allowAboveRoot);
      Walk([], parts + [segment], allowAboveRoot) ==
      if segment == "." then before
      else if segment != ".." then before + [segment]
      else if before != [] && before[|before| - 1] != ".." then before[..|before| - 1]
      else if allowAboveRoot then before + [".."]
      else before
  {
    WalkConcat([], parts, [segment], allowAboveRoot);
    assert [segment][1..] == [];
  }

  // ---------- what normalised paths look like ----------

  /** Only leading steps up, and only if these are allowed, then plain segments. */
  ghost predicate Normal(parts: seq<string>, allowAboveRoot: bool) {
    exists up: nat | up <= |parts| ::
      (up > 0 ==> allowAboveRoot) && parts[..up] == Ups(up) && forall s <- parts[up..] :: Plain(s)
  }

  lemma StepStaysNormal(stack: seq<string>, segment: string, allowAboveRoot: bool)
    requires Normal(stack, allowAboveRoot)
    ensures Normal(Step(stack, segment, allowAboveRoot), allowAboveRoot)
  {
    var up :| 0 <= up <= |stack| && (up > 0 ==> allowAboveRoot) && stack[..up] == Ups(up) &&
      forall s <- stack[up..] :: Plain(s);
    var next := Step(stack, segment, allowAboveRoot);
    if up == |stack| {
      assert stack == Ups(up);
    } else {
      assert stack[|stack| - 1] in stack[up..];
    }
    if Plain(segment) {
      assert next[..up] == stack[..up] && next[up..] == stack[up..] + [segment];
    } else if segment == ".." && stack != [] && stack[|stack| - 1] != ".." {
      assert next[..up] == stack[..up] && next[up..] == stack[up..][..|stack| - 1 - up];
    } else if segment == ".." && allowAboveRoot {
      assert next[..up + 1] == Ups(up + 1) && next[up + 1..] == [];
    }
  }

  lemma {:induction false} WalkIsNormal(stack: seq<string>, parts: seq<string>, allowAboveRoot: bool)
    requires Normal(stack, allowAboveRoot)
    ensures Normal(Walk(stack, parts, allowAboveRoot), allowAboveRoot)
    decreases |parts|
  {
    if parts != [] {
      StepStaysNormal(stack, parts[0], allowAboveRoot);
      WalkIsNormal(Step(stack, parts[0], allowAboveRoot), parts[1..], allowAboveRoot);
    }
  }

  lemma NormalStays(parts: seq<string>, allowAboveRoot: bool)
    requires Normal(parts, allowAboveRoot)
    ensures Walk([], parts, allowAboveRoot) == parts
  {
    var up :| 0 <= up <= |parts| && (up > 0 ==> allowAboveRoot) && parts[..up] == Ups(up) &&
      forall s <- parts[up..] :: Plain(s);
    assert parts == Ups(up) + parts[up..];
    WalkUp(0, up, parts[up..], allowAboveRoot);
    assert Ups(0) == [];
  }

  /** Normalising gives a normal path, and normalising that again changes nothing. */
  lemma NormalizingIsIdempotent(parts: seq<string>, allowAboveRoot: bool)
    ensures Normal(Walk([], parts, allowAboveRoot), allowAboveRoot)
    ensures Walk([], Walk([], parts, allowAboveRoot), allowAboveRoot) == Walk([], parts, allowAboveRoot)
  {
    var none: seq<string> := [];
    assert none[..0] == Ups(0) && none[0..] == [];
    WalkIsNormal([], parts, allowAboveRoot);
    NormalStays(Walk([], parts, allowAboveRoot), allowAboveRoot);
  }

  /** A path is normal exactly if normalising leaves it as it is. */
  lemma NormalExactlyIfFixed(parts: seq<string>, allowAboveRoot: bool)
    ensures Normal(parts, allowAboveRoot) <==> Walk([], parts, allowAboveRoot) == parts
  {
    NormalizingIsIdempotent(parts, allowAboveRoot);
    if Normal(parts, allowAboveRoot) {
      NormalStays(parts, allowAboveRoot);
    }
  }
}
