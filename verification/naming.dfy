/** `to_snake_case`: the regular-expression substitution of `(?<!^)(?=[A-Z])` by
    `_`, followed by lower-casing. The tool and callback registries carry
    identical copies of it; it is defined once here. */
module Naming {

  predicate IsUpper(c: char) {
    'A' <= c <= 'Z'
  }

  function ToLower(c: char): (d: char)
    ensures !IsUpper(d)
    ensures IsUpper(c) ==> d as int == c as int + 32
    ensures !IsUpper(c) ==> d == c
  {
    if IsUpper(c) then (c as int + 32) as char else c
  }

  function LowerAll(s: string): (r: string)
    ensures |r| == |s|
    ensures forall i :: 0 <= i < |s| ==> r[i] == ToLower(s[i])
  {
    if |s| == 0 then [] else [ToLower(s[0])] + LowerAll(s[1..])
  }

  /** Each character of `s`, with `_` put in front of an upper-case one. */
  function MarkCapitals(s: string): string {
    if |s| == 0 then []
    else (if IsUpper(s[0]) then ['_', s[0]] else [s[0]]) + MarkCapitals(s[1..])
  }

  /** The substitution: every position except the very first that is followed
      by an upper-case letter receives an `_`. */
  function InsertBoundaries(s: string): string {
    if |s| == 0 then [] else [s[0]] + MarkCapitals(s[1..])
  }

  function ToSnakeCase(name: string): string {
    LowerAll(InsertBoundaries(name))
  }

  // ---------------------------------------------------------------------
  // Properties

  function CountUpper(s: string): nat {
    if |s| == 0 then 0 else (if IsUpper(s[0]) then 1 else 0) + CountUpper(s[1..])
  }

  function DropUnderscores(s: string): string {
    if |s| == 0 then [] else (if s[0] == '_' then [] else [s[0]]) + DropUnderscores(s[1..])
  }

  lemma {:induction false} MarkCapitalsLength(s: string)
    ensures |MarkCapitals(s)| == |s| + CountUpper(s)
  {
    if |s| > 0 {
      MarkCapitalsLength(s[1..]);
    }
  }

  lemma {:induction false} MarkCapitalsIdentity(s: string)
    requires forall i :: 0 <= i < |s| ==> !IsUpper(s[i])
    ensures MarkCapitals(s) == s
  {
    if |s| > 0 {
      MarkCapitalsIdentity(s[1..]);
    }
  }

  lemma {:induction false} DropUnderscoresAppend(a: string, b: string)
    ensures DropUnderscores(a + b) == DropUnderscores(a) + DropUnderscores(b)
  {
    if |a| > 0 {
      assert (a + b)[1..] == a[1..] + b;
      DropUnderscoresAppend(a[1..], b);
    } else {
      assert a + b == b;
    }
  }

  lemma {:induction false} MarkCapitalsOnlyAddsUnderscores(s: string)
    ensures DropUnderscores(MarkCapitals(s)) == DropUnderscores(s)
  {
    if |s| > 0 {
      MarkCapitalsOnlyAddsUnderscores(s[1..]);
      var head := if IsUpper(s[0]) then ['_', s[0]] else [s[0]];
      DropUnderscoresAppend(head, MarkCapitals(s[1..]));
      assert DropUnderscores(head) == DropUnderscores([s[0]]) by {
        if IsUpper(s[0]) {
          assert head[1..] == [s[0]];
        }
      }
      DropUnderscoresAppend([s[0]], s[1..]);
      assert [s[0]] + s[1..] == s;
    }
  }

  lemma {:induction false} LowerAllAppend(a: string, b: string)
    ensures LowerAll(a + b) == LowerAll(a) + LowerAll(b)
  {
  }

  lemma {:induction false} DropUnderscoresCommutesWithLower(s: string)
    ensures DropUnderscores(LowerAll(s)) == LowerAll(DropUnderscores(s))
  {
    if |s| > 0 {
      DropUnderscoresCommutesWithLower(s[1..]);
      assert LowerAll(s) == [ToLower(s[0])] + LowerAll(s[1..]);
      DropUnderscoresAppend([ToLower(s[0])], LowerAll(s[1..]));
      var head := if s[0] == '_' then [] else [s[0]];
      LowerAllAppend(head, DropUnderscores(s[1..]));
    }
  }

  /** The output has no upper-case ASCII letter. */
  lemma SnakeCaseIsLower(name: string)
    ensures forall i :: 0 <= i < |ToSnakeCase(name)| ==> !IsUpper(ToSnakeCase(name)[i])
  {
  }

  /** One `_` is added for every upper-case letter after the first character. */
  lemma SnakeCaseLength(name: string)
    ensures |ToSnakeCase(name)| == if |name| == 0 then 0 else |name| + CountUpper(name[1..])
  {
    if |name| > 0 {
      MarkCapitalsLength(name[1..]);
    }
  }

  /** A name without upper-case letters comes back unchanged. */
  lemma SnakeCaseKeepsLowerNames(name: string)
    requires forall i :: 0 <= i < |name| ==> !IsUpper(name[i])
    ensures ToSnakeCase(name) == name
  {
    if |name| > 0 {
      MarkCapitalsIdentity(name[1..]);
      assert InsertBoundaries(name) == name;
    }
  }

  /** Converting twice is converting once. */
  lemma SnakeCaseIdempotent(name: string)
    ensures ToSnakeCase(ToSnakeCase(name)) == ToSnakeCase(name)
  {
    SnakeCaseIsLower(name);
    SnakeCaseKeepsLowerNames(ToSnakeCase(name));
  }

  /** Only underscores are inserted: deleting every `_` from the output gives the
      lower-cased input with its own `_` deleted. */
  lemma SnakeCaseOnlyInsertsUnderscores(name: string)
    ensures DropUnderscores(ToSnakeCase(name)) == LowerAll(DropUnderscores(name))
  {
    var marked := InsertBoundaries(name);
    DropUnderscoresCommutesWithLower(marked);
    if |name| > 0 {
      MarkCapitalsOnlyAddsUnderscores(name[1..]);
      DropUnderscoresAppend([name[0]], MarkCapitals(name[1..]));
      DropUnderscoresAppend([name[0]], name[1..]);
      assert [name[0]] + name[1..] == name;
    }
  }

  lemma {:induction false} MarkCapitalsAppend(a: string, b: string)
    ensures MarkCapitals(a + b) == MarkCapitals(a) + MarkCapitals(b)
  {
    if |a| > 0 {
      assert (a + b)[1..] == a[1..] + b;
      MarkCapitalsAppend(a[1..], b);
    } else {
      assert a + b == b;
    }
  }

  lemma InsertBoundariesSplitsAtCapital(a: string, b: string)
    requires |a| > 0 && |b| > 0 && IsUpper(b[0])
    ensures InsertBoundaries(a + b) == InsertBoundaries(a) + "_" + InsertBoundaries(b)
  {
    var ma, mb := MarkCapitals(a[1..]), MarkCapitals(b[1..]);
    assert (a + b)[0] == a[0] && (a + b)[1..] == a[1..] + b;
    MarkCapitalsAppend(a[1..], b);
    assert MarkCapitals(b) == ['_', b[0]] + mb;
    assert InsertBoundaries(a + b) == [a[0]] + (ma + (['_', b[0]] + mb));
    assert InsertBoundaries(a) == [a[0]] + ma;
    assert InsertBoundaries(b) == [b[0]] + mb;
  }

  /** A capital letter after a non-empty prefix starts a new `_`-separated word:
      the two parts are converted independently and joined by `_`. */
  lemma SnakeCaseSplitsAtCapital(a: string, b: string)
    requires |a| > 0 && |b| > 0 && IsUpper(b[0])
    ensures ToSnakeCase(a + b) == ToSnakeCase(a) + "_" + ToSnakeCase(b)
  {
    var ia, ib := InsertBoundaries(a), InsertBoundaries(b);
    InsertBoundariesSplitsAtCapital(a, b);
    LowerAllAppend(ia + "_", ib);
    LowerAllAppend(ia, "_");
  }

  /** A capitalised word with no other capital is lower-cased at its first letter only. */
  lemma SnakeCaseCapitalWord(w: string)
    requires |w| > 0 && forall i :: 1 <= i < |w| ==> !IsUpper(w[i])
    ensures ToSnakeCase(w) == [ToLower(w[0])] + w[1..]
  {
    MarkCapitalsIdentity(w[1..]);
    assert InsertBoundaries(w) == w;
    var r := ToSnakeCase(w);
    forall i | 1 <= i < |w| ensures r[i] == w[i] {
      assert r[i] == ToLower(w[i]);
    }
  }

  // The words are parameters pinned by `requires`, rather than literals in the
  // lemma's statement, so that the solver does not unfold the conversion on literals.
  lemma SnakeCaseReadFileToolWords(x: string, y: string, z: string)
    requires x == "Read" && y == "File" && z == "Tool"
    ensures ToSnakeCase(x) == "read" && ToSnakeCase(y) == "file" && ToSnakeCase(z) == "tool"
  {
    SnakeCaseCapitalWord(x);
    SnakeCaseCapitalWord(y);
    SnakeCaseCapitalWord(z);
  }
  lemma SnakeCaseThreeWords(x: string, y: string, z: string)
    requires |x| > 0 && |y| > 0 && |z| > 0 && IsUpper(y[0]) && IsUpper(z[0])
    ensures ToSnakeCase(x + y + z) == ToSnakeCase(x) + "_" + ToSnakeCase(y) + "_" + ToSnakeCase(z)
  {
    SnakeCaseSplitsAtCapital(x, y);
    SnakeCaseSplitsAtCapital(x + y, z);
  }

  /** The documented example `'ReadFileTool' -> 'read_file_tool'`, word by word
      (the words are parameters for the reason given above). */
  lemma SnakeCaseReadFileToolExample(x: string, y: string, z: string)
    requires x == "Read" && y == "File" && z == "Tool"
    ensures ToSnakeCase(x + y + z) == "read_file_tool"
  {
    SnakeCaseThreeWords(x, y, z);
    SnakeCaseReadFileToolWords(x, y, z);
  }

  /** The second documented example `'FormatOutput' -> 'format_output'`, with its
      words as parameters like the first. */
  lemma SnakeCaseFormatOutputExample(x: string, y: string)
    requires x == "Format" && y == "Output"
    ensures ToSnakeCase(x + y) == "format_output"
  {
    SnakeCaseSplitsAtCapital(x, y);
    SnakeCaseFormatOutputWords(x, y);
  }

  lemma SnakeCaseFormatOutputWords(x: string, y: string)
    requires x == "Format" && y == "Output"
    ensures ToSnakeCase(x) == "format" && ToSnakeCase(y) == "output"
  {
    SnakeCaseCapitalWord(x);
    SnakeCaseCapitalWord(y);
  }
}
