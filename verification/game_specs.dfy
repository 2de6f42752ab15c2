/** Game specifications: a description is looked up by key and its whitespace
    normalised, `" ".join(text.split())`. The description texts are data and the
    table is a parameter. */
module GameSpecs {
  import opened Wrappers

  /** `str.isspace` for one character: the ASCII whitespace and separator
      controls, and the Unicode space separators and line/paragraph separators. */
  predicate IsSpace(c: char) {
    var n := c as int;
    || (0x09 <= n <= 0x0D)
    || (0x1C <= n <= 0x20)
    || n == 0x85
    || n == 0xA0
    || n == 0x1680
    || (0x2000 <= n <= 0x200A)
    || n == 0x2028
    || n == 0x2029
    || n == 0x202F
    || n == 0x205F
    || n == 0x3000
  }

  predicate NoSpace(s: string) {
    forall i :: 0 <= i < |s| ==> !IsSpace(s[i])
  }

  /** A word as `split()` produces it: non-empty and without whitespace. */
  predicate IsWord(w: string) {
    |w| > 0 && NoSpace(w)
  }

  predicate AllWords(ws: seq<string>) {
    forall i :: 0 <= i < |ws| ==> IsWord(ws[i])
  }

  /** The longest prefix of `s` without whitespace. */
  function TakeWord(s: string): (w: string)
    ensures |w| <= |s| && w == s[..|w|] && NoSpace(w)
    ensures |w| == |s| || IsSpace(s[|w|])
  {
    if |s| == 0 || IsSpace(s[0]) then []
    else [s[0]] + TakeWord(s[1..])
  }

  /** `str.split()` without a separator: the maximal runs of non-whitespace, in order. */
  function Split(s: string): (ws: seq<string>)
    ensures AllWords(ws)
    decreases |s|
  {
    if |s| == 0 then []
    else if IsSpace(s[0]) then Split(s[1..])
    else
      var w := TakeWord(s);
      [w] + Split(s[|w|..])
  }

  /** `" ".join(words)`. */
  function Join(ws: seq<string>): string {
    if |ws| == 0 then []
    else if |ws| == 1 then ws[0]
    else ws[0] + " " + Join(ws[1..])
  }

  function Normalize(s: string): string {
    Join(Split(s))
  }

  datatype SpecError = MissingKey(key: string)

  /** `game_specs(key)`: the normalised description; an unknown key is an error. */
  function GameSpec(specs: map<string, string>, key: string): (r: Result<string, SpecError>)
    ensures key !in specs <==> r == Failure(MissingKey(key))
    ensures r.Success? ==> IsNormalized(r.value) && DropSpaces(r.value) == DropSpaces(specs[key])
    ensures r.Success? ==> Split(r.value) == Split(specs[key])
  {
    if key !in specs then Failure(MissingKey(key))
    else
      NormalizeIsNormalized(specs[key]);
      NormalizeKeepsText(specs[key]);
      NormalizeKeepsWords(specs[key]);
      Success(Normalize(specs[key]))
  }

  // ---------------------------------------------------------------------
  // Reference definitions

  /** Text in normal form: no whitespace at either end, and every whitespace
      character is a single `' '` followed by a non-whitespace character. */
  predicate IsNormalized(s: string) {
    && (|s| > 0 ==> !IsSpace(s[0]) && !IsSpace(s[|s| - 1]))
    && forall i :: 0 <= i < |s| && IsSpace(s[i]) ==> s[i] == ' ' && i + 1 < |s| && !IsSpace(s[i + 1])
  }

  /** The non-whitespace characters of `s`, in order. */
  function DropSpaces(s: string): string {
    if |s| == 0 then [] else (if IsSpace(s[0]) then [] else [s[0]]) + DropSpaces(s[1..])
  }

  function Concat(ws: seq<string>): string {
    if |ws| == 0 then [] else ws[0] + Concat(ws[1..])
  }

  // ---------------------------------------------------------------------
  // Properties

  lemma {:induction false} DropSpacesAppend(a: string, b: string)
    ensures DropSpaces(a + b) == DropSpaces(a) + DropSpaces(b)
  {
    if |a| > 0 {
      assert (a + b)[1..] == a[1..] + b;
      DropSpacesAppend(a[1..], b);
    } else {
      assert a + b == b;
    }
  }

  lemma {:induction false} DropSpacesOfWord(w: string)
    requires NoSpace(w)
    ensures DropSpaces(w) == w
  {
    if |w| > 0 {
      DropSpacesOfWord(w[1..]);
    }
  }

  /** A word followed by nothing or by whitespace is taken whole. */
  lemma {:induction false} TakeWordOfWord(w: string, t: string)
    requires NoSpace(w)
    requires |t| == 0 || IsSpace(t[0])
    ensures TakeWord(w + t) == w
  {
    if |w| > 0 {
      assert (w + t)[0] == w[0] && (w + t)[1..] == w[1..] + t;
      TakeWordOfWord(w[1..], t);
    } else {
      assert w + t == t;
    }
  }

  /** The words of `s` are exactly its non-whitespace characters. */
  lemma {:induction false} SplitKeepsText(s: string)
    ensures Concat(Split(s)) == DropSpaces(s)
    decreases |s|
  {
    if |s| > 0 {
      if IsSpace(s[0]) {
        SplitKeepsText(s[1..]);
      } else {
        var w := TakeWord(s);
        SplitKeepsText(s[|w|..]);
        assert s == w + s[|w|..];
        DropSpacesAppend(w, s[|w|..]);
        DropSpacesOfWord(w);
        assert ([w] + Split(s[|w|..]))[1..] == Split(s[|w|..]);
      }
    }
  }

  lemma {:induction false} JoinKeepsText(ws: seq<string>)
    requires AllWords(ws)
    ensures DropSpaces(Join(ws)) == Concat(ws)
  {
    if |ws| == 1 {
      DropSpacesOfWord(ws[0]);
      assert Concat(ws) == ws[0] + Concat([]);
    } else if |ws| > 1 {
      JoinKeepsText(ws[1..]);
      DropSpacesOfWord(ws[0]);
      DropSpacesAppend(ws[0] + " ", Join(ws[1..]));
      DropSpacesAppend(ws[0], " ");
    }
  }

  /** Normalising loses no text: only whitespace is dropped or replaced. */
  lemma NormalizeKeepsText(s: string)
    ensures DropSpaces(Normalize(s)) == DropSpaces(s)
  {
    SplitKeepsText(s);
    JoinKeepsText(Split(s));
  }

  lemma {:induction false} JoinStartsWithWord(ws: seq<string>)
    requires AllWords(ws) && |ws| > 0
    ensures |Join(ws)| > 0 && Join(ws)[0] == ws[0][0]
  {
  }

  /** Joining words gives normalised text. */
  lemma {:induction false} JoinIsNormalized(ws: seq<string>)
    requires AllWords(ws)
    ensures IsNormalized(Join(ws))
  {
    if |ws| > 1 {
      var w, rest := ws[0], Join(ws[1..]);
      JoinIsNormalized(ws[1..]);
      JoinStartsWithWord(ws[1..]);
      var s := w + " " + rest;
      assert s == Join(ws);
      assert forall j :: 0 <= j < |w| ==> s[j] == w[j];
      forall i | 0 <= i < |s| && IsSpace(s[i])
        ensures s[i] == ' ' && i + 1 < |s| && !IsSpace(s[i + 1])
      {
        if i > |w| {
          assert s[i] == rest[i - |w| - 1];
          assert s[i + 1] == rest[i - |w|];
        }
      }
    }
  }

  lemma NormalizeIsNormalized(s: string)
    ensures IsNormalized(Normalize(s))
  {
    JoinIsNormalized(Split(s));
  }

  /** Text already in normal form is left unchanged. */
  lemma {:induction false} NormalizedIsFixed(s: string)
    requires IsNormalized(s)
    ensures Normalize(s) == s
    decreases |s|
  {
    if |s| > 0 {
      var w := TakeWord(s);
      assert |w| > 0;
      if |w| < |s| {
        var t := s[|w| + 1..];
        assert s[|w|] == ' ' && |w| + 1 < |s| && !IsSpace(s[|w| + 1]);
        assert s[|w|..][1..] == t;
        assert Split(s[|w|..]) == Split(t);
        assert IsNormalized(t) by {
          forall i | 0 <= i < |t| && IsSpace(t[i])
            ensures t[i] == ' ' && i + 1 < |t| && !IsSpace(t[i + 1])
          {
            assert t[i] == s[|w| + 1 + i];
          }
        }
        NormalizedIsFixed(t);
        assert Split(t) != [] by {
          assert t[0] == s[|w| + 1];
        }
        assert s == w + " " + t;
      } else {
        assert w == s && s[|w|..] == [];
        assert Split(s) == [w];
      }
    }
  }

  /** Text is in normal form exactly when normalising leaves it unchanged. */
  lemma NormalizedIffFixed(s: string)
    ensures IsNormalized(s) <==> Normalize(s) == s
  {
    if IsNormalized(s) {
      NormalizedIsFixed(s);
    }
    NormalizeIsNormalized(s);
  }

  /** Normalising twice is normalising once. */
  lemma NormalizeIdempotent(s: string)
    ensures Normalize(Normalize(s)) == Normalize(s)
  {
    NormalizeIsNormalized(s);
    NormalizedIsFixed(Normalize(s));
  }

  /** `split()` skips a leading whitespace character. */
  lemma SplitSkipsSpace(c: char, t: string)
    requires IsSpace(c)
    ensures Split([c] + t) == Split(t)
  {
    assert ([c] + t)[1..] == t;
  }

  /** `split()` cuts a word exactly where whitespace (or the text) begins. */
  lemma SplitTakesWord(w: string, t: string)
    requires IsWord(w)
    requires |t| == 0 || IsSpace(t[0])
    ensures Split(w + t) == [w] + Split(t)
  {
    TakeWordOfWord(w, t);
    assert (w + t)[0] == w[0];
    assert (w + t)[|w|..] == t;
  }

  /** The looked-up description is the only normalised text with the stored
      text's words: the contract of `GameSpec` pins its result down. */
  lemma GameSpecUnique(specs: map<string, string>, key: string, t: string)
    requires key in specs
    requires IsNormalized(t) && Split(t) == Split(specs[key])
    ensures GameSpec(specs, key) == Success(t)
  {
    NormalizedIsFixed(t);
  }

  /** Splitting joined words gives the words back. */
  lemma {:induction false} SplitJoin(ws: seq<string>)
    requires AllWords(ws)
    ensures Split(Join(ws)) == ws
  {
    if |ws| == 1 {
      SplitTakesWord(ws[0], []);
      assert ws[0] + [] == ws[0];
    } else if |ws| > 1 {
      var w, rest := ws[0], Join(ws[1..]);
      assert Join(ws) == w + (" " + rest);
      SplitTakesWord(w, " " + rest);
      SplitSkipsSpace(' ', rest);
      SplitJoin(ws[1..]);
      assert ws == [w] + ws[1..];
    }
  }

  /** Normalising keeps the word sequence: splitting the result gives the words of the input. */
  lemma NormalizeKeepsWords(s: string)
    ensures Split(Normalize(s)) == Split(s)
  {
    SplitJoin(Split(s));
  }

  /** The result is empty exactly when the text is all whitespace. */
  lemma {:induction false} NormalizeEmptyIffBlank(s: string)
    ensures Normalize(s) == [] <==> forall i :: 0 <= i < |s| ==> IsSpace(s[i])
    decreases |s|
  {
    if |s| > 0 {
      if IsSpace(s[0]) {
        NormalizeEmptyIffBlank(s[1..]);
        assert forall i :: 1 <= i < |s| ==> s[i] == s[1..][i - 1];
      } else {
        JoinStartsWithWord(Split(s));
      }
    }
  }
}
