/** Optional values, for lookups that may find nothing. */
module Options {
  datatype Option<+T> = None | Some(value: T) {
    function GetOr(default: T): T {
      match this
      case Some(v) => v
      case None => default
    }
  }
}

/**
 * The string operations the installer relies on: splitting a line into
 * fields (java.lang.String.split with a one-character pattern, and the
 * whitespace tokenizer behind Runtime.exec(String)), and the left-to-right
 * replacement of every occurrence of a target (java.lang.String.replace).
 */
module Text {

  /** Splits `s` at every character of `seps`, keeping empty fields. */
  function Fields(s: string, seps: set<char>): (r: seq<string>)
    ensures |r| >= 1
    ensures forall i :: 0 <= i < |r| ==> forall j :: 0 <= j < |r[i]| ==> r[i][j] !in seps
    decreases |s|
  {
    if s == [] then [""]
    else
      var rest := Fields(s[1..], seps);
      if s[0] in seps then [""] + rest
      else [[s[0]] + rest[0]] + rest[1..]
  }

  /** True when no character of `s` belongs to `cs`. */
  predicate Avoids(s: string, cs: set<char>) {
    forall j :: 0 <= j < |s| ==> s[j] !in cs
  }

  /** The non-empty strings of `xs`, in order. */
  function NonEmpty(xs: seq<string>): (r: seq<string>)
    ensures forall i :: 0 <= i < |r| ==> r[i] != ""
    ensures forall i :: 0 <= i < |r| ==> r[i] in xs
  {
    if xs == [] then []
    else if xs[0] == "" then NonEmpty(xs[1..])
    else [xs[0]] + NonEmpty(xs[1..])
  }

  /** Drops the empty strings at the end of `xs`. */
  function DropTrailingEmpty(xs: seq<string>): (r: seq<string>)
    ensures |r| <= |xs| && r == xs[..|r|]
    ensures r == [] || r[|r| - 1] != ""
  {
    if xs == [] then []
    else if xs[|xs| - 1] == "" then DropTrailingEmpty(xs[..|xs| - 1])
    else xs
  }

  /** `s.split(" ")` for a one-character separator `c`: the whole string when
      `c` does not occur, otherwise the fields without the trailing empty ones. */
  function JavaSplit(s: string, c: char): (r: seq<string>)
    ensures forall i :: 0 <= i < |r| ==> c !in r[i]
    ensures c in s ==> r == [] || r[|r| - 1] != ""
    ensures c !in s ==> r == [s]
  {
    if c !in s then [s] else DropTrailingEmpty(Fields(s, {c}))
  }

  /** The fields `xs` joined back with the separator `c` between them. */
  function Join(xs: seq<string>, c: char): string {
    if xs == [] then ""
    else if |xs| == 1 then xs[0]
    else xs[0] + [c] + Join(xs[1..], c)
  }

  /** The characters java.util.StringTokenizer treats as delimiters by default. */
  const Blanks: set<char> := {' ', '\t', '\n', '\r', 12 as char}

  /** The words Runtime.exec(String) makes of a command line. */
  function Tokens(s: string): (r: seq<string>)
    ensures forall i :: 0 <= i < |r| ==> r[i] != "" && Avoids(r[i], Blanks)
  {
    NonEmpty(Fields(s, Blanks))
  }

  /** True when `f` occurs in `s` starting at index `i`. */
  predicate OccursAt(s: string, f: string, i: int) {
    0 <= i && i + |f| <= |s| && s[i..i + |f|] == f
  }

  /** `s.replace(f, t)`: every occurrence of `f`, scanned left to right and
      without overlap, is replaced by `t`. */
  function ReplaceAll(s: string, f: string, t: string): (r: string)
    requires f != []
    // with the replacement equal to the target, replace is the identity
    ensures t == f ==> r == s
    decreases |s|
  {
    if |s| < |f| then s
    else if s[..|f|] == f then
      assert s == s[..|f|] + s[|f|..];
      t + ReplaceAll(s[|f|..], f, t)
    else
      assert s == [s[0]] + s[1..];
      [s[0]] + ReplaceAll(s[1..], f, t)
  }

  // ---------------------------------------------------------------- lemmas

  /** Splitting at a separator character distributes over concatenation. */
  lemma {:induction false} FieldsAround(a: string, c: char, b: string, seps: set<char>)
    requires c in seps
    ensures Fields(a + [c] + b, seps) == Fields(a, seps) + Fields(b, seps)
    decreases |a|
  {
    if a == [] {
      assert a + [c] + b == [c] + b;
      assert ([c] + b)[1..] == b;
    } else {
      assert (a + [c] + b)[1..] == a[1..] + [c] + b;
      FieldsAround(a[1..], c, b, seps);
    }
  }

  /** A string without separators is a single field. */
  lemma {:induction false} FieldsOfPlain(s: string, seps: set<char>)
    requires Avoids(s, seps)
    ensures Fields(s, seps) == [s]
    decreases |s|
  {
    if s != [] {
      FieldsOfPlain(s[1..], seps);
      assert [s[0]] + s[1..] == s;
    }
  }

  lemma {:induction false} NonEmptyConcat(xs: seq<string>, ys: seq<string>)
    ensures NonEmpty(xs + ys) == NonEmpty(xs) + NonEmpty(ys)
    decreases |xs|
  {
    if xs == [] {
      assert xs + ys == ys;
    } else {
      assert (xs + ys)[1..] == xs[1..] + ys;
      NonEmptyConcat(xs[1..], ys);
    }
  }

  /** A string in which the target never occurs is returned unchanged. */
  lemma {:induction false} ReplaceWithoutOccurrence(s: string, f: string, t: string)
    requires f != []
    ensures (forall i :: !OccursAt(s, f, i)) ==> ReplaceAll(s, f, t) == s
    decreases |s|
  {
    if (forall i :: !OccursAt(s, f, i)) && |s| >= |f| {
      assert !OccursAt(s, f, 0);
      forall i ensures !OccursAt(s[1..], f, i) {
        if OccursAt(s[1..], f, i) {
          assert s[1..][i..i + |f|] == s[i + 1..i + 1 + |f|];
          assert OccursAt(s, f, i + 1);
        }
      }
      ReplaceWithoutOccurrence(s[1..], f, t);
      assert s == [s[0]] + s[1..];
    }
  }

  /** The first occurrence of the target is replaced: when `f` does not start
      anywhere inside `a`, `a` is kept, that `f` becomes `t`, and the scan
      resumes after it. */
  lemma {:induction false} ReplaceFirst(a: string, f: string, b: string, t: string)
    requires f != []
    requires forall i :: 0 <= i < |a| ==> !OccursAt(a + f + b, f, i)
    ensures ReplaceAll(a + f + b, f, t) == a + t + ReplaceAll(b, f, t)
    decreases |a|
  {
    var s := a + f + b;
    if a == [] {
      assert s[..|f|] == f && s[|f|..] == b;
    } else {
      assert !OccursAt(s, f, 0);
      assert s[0] == a[0] && s[1..] == a[1..] + f + b;
      assert ReplaceAll(s, f, t) == [a[0]] + ReplaceAll(a[1..] + f + b, f, t);
      NoOccurrenceShifts(a, f, b);
      ReplaceFirst(a[1..], f, b, t);
      assert a + t + ReplaceAll(b, f, t) == [a[0]] + (a[1..] + t + ReplaceAll(b, f, t));
    }
  }

  /** Dropping the first character of `a` keeps `f` from starting inside it. */
  lemma NoOccurrenceShifts(a: string, f: string, b: string)
    requires a != []
    requires forall i :: 0 <= i < |a| ==> !OccursAt(a + f + b, f, i)
    ensures forall i :: 0 <= i < |a| - 1 ==> !OccursAt(a[1..] + f + b, f, i)
  {
    var s := a + f + b;
    forall i | 0 <= i < |a| - 1 ensures !OccursAt(a[1..] + f + b, f, i) {
      assert !OccursAt(s, f, i + 1);
    }
  }

  /** A character that is not part of the target splits the rewrite: the two
      sides are rewritten independently (so both fields of a manifest link
      line are rewritten, each on its own). */
  lemma {:induction false} ReplaceAround(a: string, c: char, b: string, f: string, t: string)
    requires f != [] && c !in f
    ensures ReplaceAll(a + [c] + b, f, t) == ReplaceAll(a, f, t) + [c] + ReplaceAll(b, f, t)
    decreases |a|
  {
    var s := a + [c] + b;
    if |s| < |f| {
      assert |a| < |f| && |b| < |f|;
    } else if s[..|f|] == f {
      OccurrenceBeforeSeparator(a, c, b, f);
      assert s[|f|..] == a[|f|..] + [c] + b;
      ReplaceAround(a[|f|..], c, b, f, t);
    } else if a == [] {
      assert s[1..] == b;
    } else {
      assert s[1..] == a[1..] + [c] + b;
      ReplaceAround(a[1..], c, b, f, t);
      if |a| >= |f| {
        assert a[..|f|] == s[..|f|];
      }
    }
  }

  /** An occurrence at the start of `a + [c] + b` lies inside `a` when `c`
      is not a character of the target. */
  lemma OccurrenceBeforeSeparator(a: string, c: char, b: string, f: string)
    requires c !in f && |f| <= |a + [c] + b| && (a + [c] + b)[..|f|] == f
    ensures |f| <= |a| && a[..|f|] == f
  {
    var s := a + [c] + b;
    assert forall i :: 0 <= i < |f| ==> s[i] == f[i];
    assert s[|a|] == c;
  }

  /** Replacing with a text free of the characters `cs` introduces none of them. */
  lemma {:induction false} ReplaceAvoids(s: string, f: string, t: string, cs: set<char>)
    requires f != [] && Avoids(s, cs) && Avoids(t, cs)
    ensures Avoids(ReplaceAll(s, f, t), cs)
    decreases |s|
  {
    if |s| < |f| {
    } else if s[..|f|] == f {
      ReplaceAvoids(s[|f|..], f, t, cs);
    } else {
      ReplaceAvoids(s[1..], f, t, cs);
    }
  }

  /** Joining the fields at their separator gives back the string. */
  lemma {:induction false} FieldsJoin(s: string, c: char)
    ensures Join(Fields(s, {c}), c) == s
    decreases |s|
  {
    if s != [] {
      var rest := Fields(s[1..], {c});
      FieldsJoin(s[1..], c);
      if s[0] == c {
        assert ([""] + rest)[1..] == rest;
      } else {
        var xs := [[s[0]] + rest[0]] + rest[1..];
        assert xs[1..] == rest[1..];
        assert [s[0]] + s[1..] == s;
      }
    }
  }

  /** The last field is non-empty when the string does not end with the separator. */
  lemma {:induction false} FieldsLast(s: string, c: char)
    requires s != [] && s[|s| - 1] != c
    ensures var r := Fields(s, {c}); r[|r| - 1] != ""
    decreases |s|
  {
    if |s| > 1 {
      FieldsLast(s[1..], c);
    }
  }

  /** split(" ") loses nothing on a line that does not end with a space:
      joining its fields with the separator gives the line back. */
  lemma SplitJoin(s: string, c: char)
    requires s == [] || s[|s| - 1] != c
    ensures Join(JavaSplit(s, c), c) == s
  {
    if c in s {
      FieldsJoin(s, c);
      FieldsLast(s, c);
    }
  }

  /** A line made of two blank-free words joined by one space splits into
      exactly those words, both for String.split(" ") and for the tokenizer. */
  lemma TwoWords(a: string, b: string)
    requires a != [] && b != [] && Avoids(a, Blanks) && Avoids(b, Blanks)
    ensures JavaSplit(a + [' '] + b, ' ') == [a, b]
    ensures Tokens(a + [' '] + b) == [a, b]
  {
    SplitTwoWords(a, b);
    TokenizeTwoWords(a, b);
  }

  lemma SplitTwoWords(a: string, b: string)
    requires a != [] && b != [] && Avoids(a, {' '}) && Avoids(b, {' '})
    ensures JavaSplit(a + [' '] + b, ' ') == [a, b]
  {
    var line := a + [' '] + b;
    assert line[|a|] == ' ';
    FieldsAround(a, ' ', b, {' '});
    FieldsOfPlain(a, {' '});
    FieldsOfPlain(b, {' '});
    assert Fields(line, {' '}) == [a, b];
  }

  lemma TokenizeTwoWords(a: string, b: string)
    requires a != [] && b != [] && Avoids(a, Blanks) && Avoids(b, Blanks)
    ensures Tokens(a + [' '] + b) == [a, b]
  {
    FieldsAround(a, ' ', b, Blanks);
    FieldsOfPlain(a, Blanks);
    FieldsOfPlain(b, Blanks);
    NonEmptyConcat([a], [b]);
  }
}
