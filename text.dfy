/**
 * The two Python string builtins the gap analysis is made of: `str.lower()` and
 * `str.split()` with no separator argument.
 */
module Text {

  /** The characters for which Python's `str.isspace()` holds; `str.split()` splits on runs of these. */
  predicate IsSpace(c: char)
  {
    c == ' ' || ('\t' <= c <= '\r') || ('\U{1C}' <= c <= '\U{1F}') ||
    c == '\U{85}' || c == '\U{A0}' || c == '\U{1680}' || ('\U{2000}' <= c <= '\U{200A}') ||
    c == '\U{2028}' || c == '\U{2029}' || c == '\U{202F}' || c == '\U{205F}' || c == '\U{3000}'
  }

  predicate IsUpper(c: char)
  {
    'A' <= c <= 'Z'
  }

  /** Lower-case mapping of one character (ASCII letters only). */
  function LowerChar(c: char): (r: char)
    ensures !IsUpper(r)
    ensures IsSpace(r) <==> IsSpace(c)
    ensures !IsUpper(c) ==> r == c
  {
    if IsUpper(c) then (c as int - 'A' as int + 'a' as int) as char else c
  }

  /** `s.lower()`: character by character, so the length is unchanged. */
  function Lower(s: string): (r: string)
    ensures |r| == |s|
    ensures forall i :: 0 <= i < |s| ==> r[i] == LowerChar(s[i])
  {
    seq(|s|, i requires 0 <= i < |s| => LowerChar(s[i]))
  }

  /** A string is in lower case when lowering it changes nothing. */
  predicate IsLower(s: string)
  {
    Lower(s) == s
  }

  /** A token `str.split()` can produce: non-empty and free of whitespace. */
  predicate IsWord(w: string)
  {
    w != [] && forall i :: 0 <= i < |w| ==> !IsSpace(w[i])
  }

  /**
   * `s.split()`: the maximal runs of non-whitespace characters of `s`, in order.
   * `word` holds the run read so far.
   */
  function SplitFrom(s: string, word: string): seq<string>
    decreases |s|
  {
    if s == [] then
      (if word == [] then [] else [word])
    else if IsSpace(s[0]) then
      (if word == [] then [] else [word]) + SplitFrom(s[1..], [])
    else
      SplitFrom(s[1..], word + [s[0]])
  }

  /** Every token of `s.split()` is a non-empty, whitespace-free run of characters of `s`. */
  function Split(s: string): (r: seq<string>)
    ensures forall t :: t in r ==> IsWord(t)
    ensures forall t, c :: t in r && c in t ==> c in s
  {
    SplitFromWords(s, []);
    SplitFrom(s, [])
  }

  /** `" ".join(ws)`: the words separated by single spaces. */
  function Join(ws: seq<string>): string
  {
    if |ws| == 0 then []
    else if |ws| == 1 then ws[0]
    else ws[0] + " " + Join(ws[1..])
  }

  /**
   * `set(s.lower().split())`: its tokens are non-empty, have no whitespace and
   * are their own lower-case form.
   */
  function TokenSet(s: string): (r: set<string>)
    ensures forall t :: t in r ==> IsWord(t) && IsLower(t)
  {
    LoweredTokensAreLower(s);
    set t | t in Split(Lower(s))
  }

  lemma {:induction false} SplitFromWords(s: string, word: string)
    requires word == [] || IsWord(word)
    ensures forall t :: t in SplitFrom(s, word) ==> IsWord(t)
    ensures forall t, c :: t in SplitFrom(s, word) && c in t ==> c in word || c in s
    decreases |s|
  {
    if s != [] {
      if IsSpace(s[0]) {
        SplitFromWords(s[1..], []);
      } else {
        SplitFromWords(s[1..], word + [s[0]]);
      }
    }
  }

  /** Every character of the lowered text is lower case, so every token of it is too. */
  lemma LoweredTokensAreLower(s: string)
    ensures forall t :: t in Split(Lower(s)) ==> IsLower(t)
  {
    forall t | t in Split(Lower(s))
      ensures IsLower(t)
    {
      forall i | 0 <= i < |t|
        ensures LowerChar(t[i]) == t[i]
      {
        assert t[i] in Lower(s);
      }
    }
  }

  /** Reading a whitespace-free run extends the word in progress by that run. */
  lemma {:induction false} SplitFromRun(w: string, rest: string, word: string)
    requires forall i :: 0 <= i < |w| ==> !IsSpace(w[i])
    ensures SplitFrom(w + rest, word) == SplitFrom(rest, word + w)
    decreases |w|
  {
    if w != [] {
      assert (w + rest)[1..] == w[1..] + rest;
      assert word + [w[0]] + w[1..] == word + w;
      SplitFromRun(w[1..], rest, word + [w[0]]);
    } else {
      assert w + rest == rest && word + w == word;
    }
  }

  /** Splitting undoes joining with single spaces: `" ".join(ws).split() == ws` for words `ws`. */
  lemma {:induction false} SplitJoin(ws: seq<string>)
    requires forall k :: 0 <= k < |ws| ==> IsWord(ws[k])
    ensures Split(Join(ws)) == ws
  {
    if |ws| == 1 {
      assert ws[0] + [] == ws[0] && [] + ws[0] == ws[0];
      SplitFromRun(ws[0], [], []);
    } else if |ws| > 1 {
      var rest := Join(ws[1..]);
      assert Join(ws) == ws[0] + (" " + rest);
      SplitFromRun(ws[0], " " + rest, []);
      assert ([] + ws[0]) == ws[0];
      assert (" " + rest)[1..] == rest;
      SplitJoin(ws[1..]);
    }
  }

  /** Lowering is idempotent, so the token sets are insensitive to case. */
  lemma LowerIdempotent(s: string)
    ensures Lower(Lower(s)) == Lower(s)
    ensures TokenSet(Lower(s)) == TokenSet(s)
  {
  }

  /**
   * A whitespace character separates: the tokens of `a + [sp] + b` are the tokens
   * of `a` followed by those of `b`, whatever spacing either part has.
   */
  lemma {:induction false} SplitFromAtSpace(a: string, sp: char, b: string, word: string)
    requires IsSpace(sp)
    ensures SplitFrom(a + [sp] + b, word) == SplitFrom(a, word) + Split(b)
    decreases |a|
  {
    if a == [] {
      assert a + [sp] + b == [sp] + b;
      assert ([sp] + b)[1..] == b;
    } else {
      assert (a + [sp] + b)[1..] == a[1..] + [sp] + b;
      if IsSpace(a[0]) {
        SplitFromAtSpace(a[1..], sp, b, []);
      } else {
        SplitFromAtSpace(a[1..], sp, b, word + [a[0]]);
      }
    }
  }

  lemma SplitAtSpace(a: string, sp: char, b: string)
    requires IsSpace(sp)
    ensures Split(a + [sp] + b) == Split(a) + Split(b)
  {
    SplitFromAtSpace(a, sp, b, []);
  }

  /** Lowering distributes over concatenation. */
  lemma LowerAppend(a: string, b: string)
    ensures Lower(a + b) == Lower(a) + Lower(b)
  {
    assert forall i :: 0 <= i < |a + b| ==> Lower(a + b)[i] == (Lower(a) + Lower(b))[i];
  }
}
