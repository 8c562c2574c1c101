/** `toCamelCase` of tools/receipt_gen/generate_items.ts: the global
    replacement of `_` followed by a lower-case ASCII letter with that
    letter in upper case. The regular expression is scanned left to right
    and matches do not overlap, so after a replacement the scan resumes
    behind the letter. */
module CamelCase {
  import opened JsStrings

  predicate IsLowerAscii(c: char) {
    'a' <= c <= 'z'
  }

  predicate IsUpperAscii(c: char) {
    'A' <= c <= 'Z'
  }

  /** `toUpperCase` on a letter a-z. */
  function ToUpperAscii(c: char): (u: char)
    requires IsLowerAscii(c)
    ensures IsUpperAscii(u) && u as int + 32 == c as int
  {
    (c as int - 32) as char
  }

  /** The pattern `_([a-z])` matches at position `i` of `s`. */
  predicate MatchAt(s: string, i: int) {
    0 <= i < |s| - 1 && s[i] == '_' && IsLowerAscii(s[i + 1])
  }

  /** The pattern matches nowhere in `s`. */
  predicate NoMatch(s: string) {
    forall i :: 0 <= i < |s| - 1 ==> !MatchAt(s, i)
  }

  function ToCamelCase(s: string): (r: string)
  {
    if MatchAt(s, 0) then [ToUpperAscii(s[1])] + ToCamelCase(s[2..])
    else if s == [] then []
    else [s[0]] + ToCamelCase(s[1..])
  }

  /** Every character of the result is a character of `s` or an upper-case
      letter made from one. */
  lemma {:induction false} CamelCaseCharacters(s: string, c: char)
    requires c in ToCamelCase(s)
    ensures c in s || IsUpperAscii(c)
  {
    var r := ToCamelCase(s);
    if MatchAt(s, 0) {
      if c != r[0] {
        assert c in ToCamelCase(s[2..]);
        CamelCaseCharacters(s[2..], c);
      }
    } else {
      if c != r[0] {
        assert c in ToCamelCase(s[1..]);
        CamelCaseCharacters(s[1..], c);
      }
    }
  }

  /** A string in which the pattern matches nowhere comes back unchanged;
      in particular a string without `_`. */
  lemma {:induction false} CamelCaseFixpoint(s: string)
    requires NoMatch(s)
    ensures ToCamelCase(s) == s
  {
    if s != [] {
      assert !MatchAt(s, 0);
      assert NoMatch(s[1..]) by {
        forall i | 0 <= i < |s[1..]| - 1 ensures !MatchAt(s[1..], i) {
          assert !MatchAt(s, i + 1);
        }
      }
      CamelCaseFixpoint(s[1..]);
      assert s == [s[0]] + s[1..];
    }
  }

  lemma CamelCaseNoUnderscore(s: string)
    requires '_' !in s
    ensures ToCamelCase(s) == s
  {
    CamelCaseFixpoint(s);
  }

  /** No match is left behind: an `_` kept in the result is not followed by
      a lower-case letter. */
  lemma {:induction false} CamelCaseLeavesNoMatch(s: string)
    ensures NoMatch(ToCamelCase(s))
  {
    var r := ToCamelCase(s);
    if s != [] {
      var n := if MatchAt(s, 0) then 2 else 1;
      var t := ToCamelCase(s[n..]);
      CamelCaseLeavesNoMatch(s[n..]);
      assert r == [r[0]] + t;
      forall i | 0 <= i < |r| - 1 ensures !MatchAt(r, i) {
        if i > 0 {
          assert !MatchAt(t, i - 1);
        } else if r[0] == '_' {
          // The `_` was kept, so the character after it in `s` is not a
          // lower-case letter, and that character (or an upper-case letter
          // made from the match it starts) comes next in the result.
          assert n == 1 && !IsLowerAscii(s[1]);
          assert !IsLowerAscii(t[0]);
        }
      }
    }
  }

  /** Applying the replacement twice is applying it once. */
  lemma CamelCaseIdempotent(s: string)
    ensures ToCamelCase(ToCamelCase(s)) == ToCamelCase(s)
  {
    CamelCaseLeavesNoMatch(s);
    CamelCaseFixpoint(ToCamelCase(s));
  }

  /** Every replacement removes one `_` and keeps the letter, so the result
      is shorter by exactly the number of underscores consumed. */
  lemma {:induction false} CamelCaseLength(s: string)
    ensures |s| - |ToCamelCase(s)| == Count(s, '_') - Count(ToCamelCase(s), '_')
  {
    if s != [] {
      var r := ToCamelCase(s);
      if MatchAt(s, 0) {
        CamelCaseLength(s[2..]);
        assert s[1..][1..] == s[2..];
        assert r[1..] == ToCamelCase(s[2..]);
      } else {
        CamelCaseLength(s[1..]);
        assert r[1..] == ToCamelCase(s[1..]);
      }
    }
  }

  /** The scan of `a + b` reaches the start of `b` unless `a` ends in `_`. */
  lemma {:induction false} CamelCaseAppend(a: string, b: string)
    requires a == [] || a[|a| - 1] != '_'
    ensures ToCamelCase(a + b) == ToCamelCase(a) + ToCamelCase(b)
  {
    if a == [] {
      assert a + b == b;
    } else if MatchAt(a, 0) {
      assert (a + b)[2..] == a[2..] + b;
      CamelCaseAppend(a[2..], b);
    } else {
      assert !MatchAt(a + b, 0);
      assert (a + b)[1..] == a[1..] + b;
      CamelCaseAppend(a[1..], b);
    }
  }

  /** `w` with its first letter in upper case. */
  function Capitalize(w: string): string
    requires w != [] && IsLowerAscii(w[0])
  {
    [ToUpperAscii(w[0])] + w[1..]
  }

  /** A snake_case tail: words that start with a lower-case letter and
      contain no `_`. */
  predicate SnakeWords(ws: seq<string>) {
    forall i :: 0 <= i < |ws| ==> ws[i] != [] && IsLowerAscii(ws[i][0]) && '_' !in ws[i]
  }

  function CapitalizedConcat(ws: seq<string>): string
    requires SnakeWords(ws)
  {
    if ws == [] then [] else Capitalize(ws[0]) + CapitalizedConcat(ws[1..])
  }

  lemma WordCamelCase(w: string, t: string)
    requires '_' !in w
    ensures ToCamelCase(w + t) == w + ToCamelCase(t)
  {
    if w != [] {
      assert w[|w| - 1] in w;
    }
    CamelCaseAppend(w, t);
    CamelCaseNoUnderscore(w);
  }

  /** A match at the start is replaced and the scan goes on behind it. */
  lemma CamelCaseAtMatch(c: char, rest: string)
    requires IsLowerAscii(c)
    ensures ToCamelCase(['_', c] + rest) == [ToUpperAscii(c)] + ToCamelCase(rest)
  {
    assert (['_', c] + rest)[2..] == rest;
  }

  lemma Regroup(c: char, w: string, after: string)
    requires w != []
    ensures [c] + (w + after) == [c, w[0]] + (w[1..] + after)
  {
    assert w == [w[0]] + w[1..];
  }

  /** `_word` followed by text that becomes `tail` becomes `Word` + `tail`. */
  lemma SnakeWordStep(w: string, after: string, tail: string)
    requires w != [] && IsLowerAscii(w[0]) && '_' !in w && ToCamelCase(after) == tail
    ensures ToCamelCase("_" + (w + after)) == Capitalize(w) + tail
  {
    Regroup('_', w, after);
    assert '_' !in w[1..] by {
      assert forall c :: c in w[1..] ==> c in w;
    }
    CamelCaseAtMatch(w[0], w[1..] + after);
    WordCamelCase(w[1..], after);
  }

  /** Each `_word` of a snake_case tail becomes `Word`. */
  lemma {:induction false} CamelCaseOfSnakeTail(ws: seq<string>)
    requires |ws| >= 1 && SnakeWords(ws)
    ensures ToCamelCase("_" + Join(ws, "_")) == CapitalizedConcat(ws)
    decreases |ws|
  {
    var w := ws[0];
    var after: string := if |ws| == 1 then [] else "_" + Join(ws[1..], "_");
    var tail: string := if |ws| == 1 then [] else CapitalizedConcat(ws[1..]);
    if |ws| > 1 {
      assert SnakeWords(ws[1..]) by {
        forall i | 0 <= i < |ws[1..]| ensures ws[1..][i] != [] && IsLowerAscii(ws[1..][i][0]) && '_' !in ws[1..][i] {
          assert ws[1..][i] == ws[i + 1];
        }
      }
      CamelCaseOfSnakeTail(ws[1..]);
    }
    assert Join(ws, "_") == w + after;
    SnakeWordStep(w, after, tail);
  }

  /** snake_case to camelCase: the words of `first_second_third` are
      glued together with every word after the first capitalized. */
  lemma CamelCaseOfSnakeCase(words: seq<string>)
    requires |words| >= 1 && '_' !in words[0] && SnakeWords(words[1..])
    ensures ToCamelCase(Join(words, "_")) == words[0] + CapitalizedConcat(words[1..])
  {
    if |words| == 1 {
      CamelCaseNoUnderscore(words[0]);
    } else {
      assert Join(words, "_") == words[0] + ("_" + Join(words[1..], "_"));
      WordCamelCase(words[0], "_" + Join(words[1..], "_"));
      CamelCaseOfSnakeTail(words[1..]);
    }
  }
}
