/**
  The JavaScript string handling the wallet facade relies on:
  `String.prototype.trim`, `String.prototype.split(/\s+/)` and the `length`
  property. `trim` and `split` use the same set of white-space characters
  (ECMAScript WhiteSpace and LineTerminator), all of them in the Basic
  Multilingual Plane, so reading a string as a sequence of Unicode scalar values
  does not change them; `length` counts UTF-16 code units (`Utf16Length`).
 */
module JsText {

  /** A character removed by `trim` and matched by `\s`. */
  predicate IsWhitespace(c: char) {
    || c == '\t' || c == '\n' || c == '\U{000B}' || c == '\U{000C}' || c == '\r' || c == ' '
    || c == '\U{00A0}' || c == '\U{1680}' || ('\U{2000}' <= c <= '\U{200A}')
    || c == '\U{2028}' || c == '\U{2029}' || c == '\U{202F}' || c == '\U{205F}'
    || c == '\U{3000}' || c == '\U{FEFF}'
  }

  predicate AllWhitespace(s: string) {
    forall i :: 0 <= i < |s| ==> IsWhitespace(s[i])
  }

  predicate NoWhitespace(s: string) {
    forall i :: 0 <= i < |s| ==> !IsWhitespace(s[i])
  }

  /** Neither the first nor the last character is white space. */
  predicate HasNoPadding(s: string) {
    s == [] || (!IsWhitespace(s[0]) && !IsWhitespace(s[|s| - 1]))
  }

  predicate IsWord(w: string) {
    w != [] && NoWhitespace(w)
  }

  /** `s` with its leading run of white space removed (see `TrimStartSpec`). */
  function TrimStart(s: string): (r: string)
    ensures |r| <= |s|
  {
    if |s| > 0 && IsWhitespace(s[0]) then TrimStart(s[1..]) else s
  }

  /** `s` with its trailing run of white space removed (see `TrimEndSpec`). */
  function TrimEnd(s: string): (r: string)
    ensures |r| <= |s|
  {
    if |s| > 0 && IsWhitespace(s[|s| - 1]) then TrimEnd(s[..|s| - 1]) else s
  }

  /** `s.trim()`: white space removed from both ends. */
  function Trim(s: string): (r: string)
    ensures |r| <= |s| && HasNoPadding(r)
  {
    TrimStartSpec(s);
    TrimEndSpec(TrimStart(s));
    assert TrimEnd(TrimStart(s)) != [] ==> TrimEnd(TrimStart(s))[0] == TrimStart(s)[0];
    TrimEnd(TrimStart(s))
  }

  /** The longest prefix of `s` without white space (see `TakeWordSpec`). */
  function TakeWord(s: string): (w: string)
    ensures |w| <= |s|
  {
    if s == [] || IsWhitespace(s[0]) then [] else [s[0]] + TakeWord(s[1..])
  }

  /** `s.split(/\s+/)`: the pieces between the maximal runs of white space.
      An empty string splits into one empty piece; leading or trailing white
      space yields an empty first or last piece. */
  function Split(s: string): (pieces: seq<string>)
    ensures |pieces| >= 1
    decreases |s|
  {
    var word := TakeWord(s);
    var rest := s[|word|..];
    if rest == [] then [word] else [word] + Split(TrimStart(rest[1..]))
  }

  /** The number of words `mnemonic.trim().split(/\s+/)` yields. */
  function WordCount(mnemonic: string): nat {
    |Split(Trim(mnemonic))|
  }

  /** The characters of `s` that are not white space, in order. */
  function NonWhitespace(s: string): string {
    if s == [] then []
    else if IsWhitespace(s[0]) then NonWhitespace(s[1..])
    else [s[0]] + NonWhitespace(s[1..])
  }

  function Concat(pieces: seq<string>): string {
    if pieces == [] then [] else pieces[0] + Concat(pieces[1..])
  }

  /** A non-empty run of white space, as `/\s+/` matches between two words. */
  predicate IsSeparator(sep: string) {
    sep != [] && AllWhitespace(sep)
  }

  predicate AreSeparators(seps: seq<string>) {
    forall k :: 0 <= k < |seps| ==> IsSeparator(seps[k])
  }

  /** `words` with `seps[k]` placed between `words[k]` and `words[k + 1]`. */
  function JoinWith(words: seq<string>, seps: seq<string>): string
    requires |words| >= 1 && |seps| == |words| - 1
  {
    if |words| == 1 then words[0] else words[0] + seps[0] + JoinWith(words[1..], seps[1..])
  }

  /** `s.length`: the number of UTF-16 code units, two for a character outside
      the Basic Multilingual Plane. */
  function Utf16Length(s: string): (n: nat)
    ensures |s| <= n <= 2 * |s|
  {
    if s == [] then 0 else (if s[0] <= '\U{FFFF}' then 1 else 2) + Utf16Length(s[1..])
  }

  predicate InBmp(s: string) {
    forall i :: 0 <= i < |s| ==> s[i] <= '\U{FFFF}'
  }

  // ---------------------------------------------------------------- trim

  /** `TrimStart(s)` is the suffix of `s` that starts at its first character
      that is not white space. */
  lemma {:induction false} TrimStartSpec(s: string)
    ensures var r := TrimStart(s);
      && r == s[|s| - |r|..]
      && AllWhitespace(s[..|s| - |r|])
      && (r == [] || !IsWhitespace(r[0]))
    decreases |s|
  {
    if |s| > 0 && IsWhitespace(s[0]) {
      TrimStartSpec(s[1..]);
      var r := TrimStart(s[1..]);
      assert s[1..][|s| - 1 - |r|..] == s[|s| - |r|..];
      assert s[..|s| - |r|] == [s[0]] + s[1..][..|s| - 1 - |r|];
    } else {
      assert s[..0] == [];
    }
  }

  /** `TrimEnd(s)` is the prefix of `s` that ends at its last character that
      is not white space. */
  lemma {:induction false} TrimEndSpec(s: string)
    ensures var r := TrimEnd(s);
      && r == s[..|r|]
      && AllWhitespace(s[|r|..])
      && (r == [] || !IsWhitespace(r[|r| - 1]))
    decreases |s|
  {
    if |s| > 0 && IsWhitespace(s[|s| - 1]) {
      var u := s[..|s| - 1];
      TrimEndSpec(u);
      var r := TrimEnd(u);
      assert u[..|r|] == s[..|r|];
      assert s[|r|..] == u[|r|..] + [s[|s| - 1]];
    } else {
      assert s[|s|..] == [] && s[..|s|] == s;
    }
  }

  lemma {:induction false} TrimStartAt(s: string, i: nat)
    requires i <= |s| && AllWhitespace(s[..i])
    requires i == |s| || !IsWhitespace(s[i])
    ensures TrimStart(s) == s[i..]
    decreases i
  {
    if i > 0 {
      assert s[0] == s[..i][0];
      assert s[1..][..i - 1] == s[..i][1..];
      TrimStartAt(s[1..], i - 1);
      assert s[1..][i - 1..] == s[i..];
    }
  }

  lemma {:induction false} TrimEndAt(s: string, j: nat)
    requires j <= |s| && AllWhitespace(s[j..])
    requires j == 0 || !IsWhitespace(s[j - 1])
    ensures TrimEnd(s) == s[..j]
    decreases |s| - j
  {
    if j < |s| {
      assert s[|s| - 1] == s[j..][|s| - 1 - j];
      assert s[..|s| - 1][j..] == s[j..][..|s| - 1 - j];
      TrimEndAt(s[..|s| - 1], j);
      assert s[..|s| - 1][..j] == s[..j];
    } else {
      assert s[..|s|] == s;
    }
  }

  lemma {:induction false} WhitespaceConcat(a: string, b: string)
    requires AllWhitespace(a) && AllWhitespace(b)
    ensures AllWhitespace(a + b)
  {
    forall k | 0 <= k < |a + b| ensures IsWhitespace((a + b)[k]) {
      if k < |a| { assert (a + b)[k] == a[k]; } else { assert (a + b)[k] == b[k - |a|]; }
    }
  }

  /** A string made only of white space trims to the empty string. */
  lemma {:induction false} TrimOfBlank(s: string)
    requires AllWhitespace(s)
    ensures Trim(s) == []
  {
    assert s[..|s|] == s;
    TrimStartAt(s, |s|);
  }

  /** `trim` is determined by its result's defining properties: any way of
      cutting `s` into white space, an unpadded infix, and white space gives
      exactly `Trim(s)` as the infix. */
  lemma {:induction false} TrimIsStrippedInfix(s: string, i: nat, j: nat)
    requires i <= j <= |s|
    requires AllWhitespace(s[..i]) && AllWhitespace(s[j..])
    requires HasNoPadding(s[i..j])
    ensures Trim(s) == s[i..j]
  {
    if i == j {
      assert s == s[..i] + s[j..];
      WhitespaceConcat(s[..i], s[j..]);
      TrimOfBlank(s);
    } else {
      assert s[i] == s[i..j][0];
      TrimStartAt(s, i);
      var t := s[i..];
      assert t[j - i..] == s[j..];
      assert t[..j - i] == s[i..j];
      assert t[j - i - 1] == s[i..j][j - i - 1];
      TrimEndAt(t, j - i);
    }
  }

  lemma {:induction false} TrimStartSkipsPadding(pre: string, s: string)
    requires AllWhitespace(pre)
    ensures TrimStart(pre + s) == TrimStart(s)
    decreases |pre|
  {
    if pre == [] {
      assert pre + s == s;
    } else {
      assert (pre + s)[1..] == pre[1..] + s;
      assert (pre + s)[0] == pre[0];
      assert AllWhitespace(pre[1..]) by {
        forall k | 0 <= k < |pre| - 1 ensures IsWhitespace(pre[1..][k]) { assert pre[1..][k] == pre[k + 1]; }
      }
      TrimStartSkipsPadding(pre[1..], s);
    }
  }

  lemma {:induction false} TrimStartKeepsTail(s: string, post: string)
    requires TrimStart(s) != []
    ensures TrimStart(s + post) == TrimStart(s) + post
    decreases |s|
  {
    assert (s + post)[0] == s[0];
    if IsWhitespace(s[0]) {
      assert (s + post)[1..] == s[1..] + post;
      TrimStartKeepsTail(s[1..], post);
    }
  }

  lemma {:induction false} TrimEndSkipsPadding(s: string, post: string)
    requires AllWhitespace(post)
    ensures TrimEnd(s + post) == TrimEnd(s)
    decreases |post|
  {
    if post == [] {
      assert s + post == s;
    } else {
      var x := s + post;
      assert x[|x| - 1] == post[|post| - 1];
      assert x[..|x| - 1] == s + post[..|post| - 1];
      var init := post[..|post| - 1];
      assert AllWhitespace(init) by {
        forall k | 0 <= k < |init| ensures IsWhitespace(init[k]) { assert init[k] == post[k]; }
      }
      TrimEndSkipsPadding(s, init);
    }
  }

  /** White space added around a string does not change what `trim` keeps. */
  lemma {:induction false} TrimIgnoresPadding(pre: string, s: string, post: string)
    requires AllWhitespace(pre) && AllWhitespace(post)
    ensures Trim(pre + s + post) == Trim(s)
  {
    assert pre + s + post == pre + (s + post);
    TrimStartSkipsPadding(pre, s + post);
    if TrimStart(s) != [] {
      TrimStartKeepsTail(s, post);
      TrimEndSkipsPadding(TrimStart(s), post);
    } else {
      TrimStartSpec(s);
      assert s[..|s|] == s;
      TrimStartSkipsPadding(s, post);
      assert post + "" == post;
      TrimStartSkipsPadding(post, "");
    }
  }

  /** A string with no white space at either end is left as it is. */
  lemma {:induction false} TrimKeepsUnpadded(s: string)
    requires HasNoPadding(s)
    ensures Trim(s) == s
  {
  }

  // ---------------------------------------------------------------- split

  /** `TakeWord(s)` is the prefix of `s` before its first white space. */
  lemma {:induction false} TakeWordSpec(s: string)
    ensures var w := TakeWord(s);
      && w == s[..|w|] && NoWhitespace(w)
      && (|w| == |s| || IsWhitespace(s[|w|]))
    decreases |s|
  {
    if s != [] && !IsWhitespace(s[0]) {
      TakeWordSpec(s[1..]);
      var w := TakeWord(s[1..]);
      assert s[..1 + |w|] == [s[0]] + s[1..][..|w|];
      var v := [s[0]] + w;
      assert NoWhitespace(v) by {
        forall i | 0 <= i < |v| ensures !IsWhitespace(v[i]) {
          if i > 0 { assert v[i] == w[i - 1]; }
        }
      }
    }
  }

  lemma {:induction false} TakeWordAt(s: string, n: nat)
    requires n <= |s| && NoWhitespace(s[..n])
    requires n == |s| || IsWhitespace(s[n])
    ensures TakeWord(s) == s[..n]
    decreases n
  {
    if n > 0 {
      assert s[0] == s[..n][0];
      var tail := s[1..][..n - 1];
      assert NoWhitespace(tail) by {
        forall i | 0 <= i < |tail| ensures !IsWhitespace(tail[i]) {
          assert tail[i] == s[..n][i + 1];
        }
      }
      TakeWordAt(s[1..], n - 1);
      assert s[..n] == [s[0]] + s[1..][..n - 1];
    }
  }

  lemma {:induction false} NonWhitespaceOfWord(w: string, r: string)
    requires NoWhitespace(w)
    ensures NonWhitespace(w + r) == w + NonWhitespace(r)
    decreases |w|
  {
    if w == [] {
      assert w + r == r;
    } else {
      assert (w + r)[0] == w[0] && (w + r)[1..] == w[1..] + r;
      assert NoWhitespace(w[1..]) by {
        forall i | 0 <= i < |w| - 1 ensures !IsWhitespace(w[1..][i]) { assert w[1..][i] == w[i + 1]; }
      }
      NonWhitespaceOfWord(w[1..], r);
    }
  }

  lemma {:induction false} NonWhitespaceAfterTrimStart(s: string)
    ensures NonWhitespace(TrimStart(s)) == NonWhitespace(s)
    decreases |s|
  {
    if |s| > 0 && IsWhitespace(s[0]) {
      NonWhitespaceAfterTrimStart(s[1..]);
    }
  }

  lemma {:induction false} ConcatSplit(s: string)
    ensures Concat(Split(s)) == NonWhitespace(s)
    decreases |s|
  {
    var word := TakeWord(s);
    TakeWordSpec(s);
    var rest := s[|word|..];
    assert s == word + rest;
    NonWhitespaceOfWord(word, rest);
    if rest == [] {
      assert Concat([word]) == word + Concat([]);
      assert word + [] == word;
    } else {
      var t := TrimStart(rest[1..]);
      ConcatSplit(t);
      NonWhitespaceAfterTrimStart(rest[1..]);
      assert NonWhitespace(rest) == NonWhitespace(rest[1..]);
      var pieces := [word] + Split(t);
      assert pieces[1..] == Split(t);
    }
  }

  lemma {:induction false} SplitPiecesHaveNoWhitespace(s: string)
    ensures forall k :: 0 <= k < |Split(s)| ==> NoWhitespace(Split(s)[k])
    decreases |s|
  {
    var word := TakeWord(s);
    TakeWordSpec(s);
    var rest := s[|word|..];
    if rest != [] {
      var t := TrimStart(rest[1..]);
      SplitPiecesHaveNoWhitespace(t);
      var pieces := [word] + Split(t);
      assert forall k :: 1 <= k < |pieces| ==> pieces[k] == Split(t)[k - 1];
    }
  }

  /** Splitting keeps every non-white-space character, in order, and only those:
      the pieces hold no white space and concatenate to the text without it. */
  lemma {:induction false} SplitKeepsText(s: string)
    ensures Concat(Split(s)) == NonWhitespace(s)
    ensures forall k :: 0 <= k < |Split(s)| ==> NoWhitespace(Split(s)[k])
  {
    ConcatSplit(s);
    SplitPiecesHaveNoWhitespace(s);
  }

  /** Trimming the start of a string that ends in a non-white-space character
      leaves a non-empty string with that same last character. */
  lemma {:induction false} TrimStartNotBlank(u: string)
    requires u != [] && !IsWhitespace(u[|u| - 1])
    ensures var t := TrimStart(u); t != [] && !IsWhitespace(t[0]) && t[|t| - 1] == u[|u| - 1]
  {
    TrimStartSpec(u);
    assert u[..|u|] == u;
  }

  /** The first piece is empty exactly when the text starts with white space. */
  lemma {:induction false} SplitFirstPiece(s: string)
    requires s != []
    ensures Split(s)[0] == [] <==> IsWhitespace(s[0])
  {
    var word := TakeWord(s);
    assert Split(s)[0] == word;
  }

  lemma {:induction false} SplitPiecesAfterFirst(s: string)
    requires s != [] && !IsWhitespace(s[|s| - 1])
    ensures forall k :: 1 <= k < |Split(s)| ==> Split(s)[k] != []
    decreases |s|
  {
    var word := TakeWord(s);
    TakeWordSpec(s);
    var rest := s[|word|..];
    if rest != [] {
      var u := rest[1..];
      assert u[|u| - 1] == s[|s| - 1];
      var t := TrimStart(u);
      TrimStartNotBlank(u);
      SplitPiecesAfterFirst(t);
      SplitFirstPiece(t);
      var pieces := [word] + Split(t);
      assert Split(s) == pieces;
      forall k | 1 <= k < |pieces| ensures pieces[k] != [] {
        assert pieces[k] == Split(t)[k - 1];
      }
    }
  }

  /** A non-empty string without white space at its ends splits into words:
      no piece is empty. */
  lemma {:induction false} SplitUnpaddedGivesWords(s: string)
    requires s != [] && HasNoPadding(s)
    ensures forall k :: 0 <= k < |Split(s)| ==> IsWord(Split(s)[k])
  {
    SplitPiecesAfterFirst(s);
    SplitFirstPiece(s);
    SplitPiecesHaveNoWhitespace(s);
  }

  /** A word followed by a run of white space and unpadded text splits into
      the word and the pieces of that text. */
  lemma {:induction false} SplitAfterWord(w: string, sep: string, rest: string)
    requires NoWhitespace(w) && IsSeparator(sep) && rest != [] && HasNoPadding(rest)
    ensures Split(w + sep + rest) == [w] + Split(rest)
  {
    var s := w + sep + rest;
    assert s[..|w|] == w && s[|w|] == sep[0];
    TakeWordAt(s, |w|);
    var more := sep[1..];
    assert s[|w|..][1..] == more + rest;
    assert AllWhitespace(more) by {
      forall k | 0 <= k < |more| ensures IsWhitespace(more[k]) { assert more[k] == sep[k + 1]; }
    }
    TrimStartSkipsPadding(more, rest);
    assert rest[..0] == [];
    TrimStartAt(rest, 0);
    assert rest[0..] == rest;
  }

  /** Splitting words joined by runs of white space gives the words back. */
  lemma {:induction false} SplitJoin(words: seq<string>, seps: seq<string>)
    requires |words| >= 1 && |seps| == |words| - 1
    requires forall k :: 0 <= k < |words| ==> IsWord(words[k])
    requires AreSeparators(seps)
    ensures Split(JoinWith(words, seps)) == words
    decreases |words|
  {
    var w := words[0];
    assert IsWord(w);
    if |words| == 1 {
      assert w[..|w|] == w;
      TakeWordAt(w, |w|);
      assert w[|w|..] == [];
    } else {
      var tail := words[1..];
      var tailSeps := seps[1..];
      assert forall k :: 0 <= k < |tail| ==> tail[k] == words[k + 1];
      assert forall k :: 0 <= k < |tailSeps| ==> tailSeps[k] == seps[k + 1];
      assert IsSeparator(seps[0]);
      JoinHasNoPadding(tail, tailSeps);
      SplitAfterWord(w, seps[0], JoinWith(tail, tailSeps));
      SplitJoin(tail, tailSeps);
      assert [w] + tail == words;
    }
  }

  lemma {:induction false} JoinHasNoPadding(words: seq<string>, seps: seq<string>)
    requires |words| >= 1 && |seps| == |words| - 1
    requires forall k :: 0 <= k < |words| ==> IsWord(words[k])
    ensures |JoinWith(words, seps)| > 0 && HasNoPadding(JoinWith(words, seps))
    decreases |words|
  {
    var w := words[0];
    assert IsWord(w);
    if |words| > 1 {
      var tail := words[1..];
      assert forall k :: 0 <= k < |tail| ==> tail[k] == words[k + 1];
      JoinHasNoPadding(tail, seps[1..]);
      var j := JoinWith(words, seps);
      var rest := JoinWith(tail, seps[1..]);
      assert j == w + seps[0] + rest;
      assert j[|j| - 1] == rest[|rest| - 1];
      assert j[0] == w[0];
    }
  }

  /** A phrase of words separated by runs of white space, with any white space
      around it, has as many words as were joined. */
  lemma {:induction false} WordCountOfPhrase(pre: string, words: seq<string>, seps: seq<string>, post: string)
    requires |words| >= 1 && |seps| == |words| - 1
    requires forall k :: 0 <= k < |words| ==> IsWord(words[k])
    requires AreSeparators(seps)
    requires AllWhitespace(pre) && AllWhitespace(post)
    ensures WordCount(pre + JoinWith(words, seps) + post) == |words|
  {
    var phrase := JoinWith(words, seps);
    TrimIgnoresPadding(pre, phrase, post);
    JoinHasNoPadding(words, seps);
    TrimKeepsUnpadded(phrase);
    SplitJoin(words, seps);
  }

  /** The UTF-16 length of a string of Basic Multilingual Plane characters is
      its number of characters. */
  lemma {:induction false} Utf16LengthOfBmp(s: string)
    requires InBmp(s)
    ensures Utf16Length(s) == |s|
    decreases |s|
  {
    if s != [] {
      assert s[0] <= '\U{FFFF}';
      assert InBmp(s[1..]) by {
        forall i | 0 <= i < |s| - 1 ensures s[1..][i] <= '\U{FFFF}' { assert s[1..][i] == s[i + 1]; }
      }
      Utf16LengthOfBmp(s[1..]);
    }
  }

  /** A blank string (empty or all white space) trims to "" and so counts as one word. */
  lemma {:induction false} BlankIsOneWord(s: string)
    requires AllWhitespace(s)
    ensures WordCount(s) == 1
  {
    TrimOfBlank(s);
    assert TakeWord("") == "";
  }
}
