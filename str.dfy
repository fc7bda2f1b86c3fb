/** The parts of Rust's `str` API that the request parser and the handlers
    rely on, written as total functions over `seq<char>` (a `char` is a
    Unicode scalar value), with the facts about them that the other modules
    use: `split` and `join` undo each other, `split_whitespace` yields
    non-empty whitespace-free tokens, `trim_start_matches` strips every
    leading repetition, `len` is the UTF-8 byte length, and decimal
    formatting is undone by decimal parsing. */
module Str {

  datatype Option<T> = None | Some(value: T)

  /** The HTTP line terminator. */
  const CRLF: string := "\r\n"

  // ---------------------------------------------------------------------
  // Prefixes and occurrences

  /** `s.starts_with(prefix)` */
  predicate StartsWith(s: string, prefix: string) {
    |prefix| <= |s| && s[..|prefix|] == prefix
  }

  /** `s.contains(pat)`: some suffix of `s` starts with `pat`. */
  predicate Contains(s: string, pat: string)
    decreases |s|
  {
    StartsWith(s, pat) || (|s| > 0 && Contains(s[1..], pat))
  }

  /** No proper prefix of `sep` is also a suffix of it, so two occurrences
      of `sep` can never overlap (true of "\r\n" and of any single char). */
  predicate Borderless(sep: string) {
    forall k :: 0 < k < |sep| ==> sep[..k] != sep[|sep| - k..]
  }

  lemma {:induction false} ContainsShort(s: string, pat: string)
    requires |s| < |pat|
    ensures !Contains(s, pat)
    decreases |s|
  {
    if |s| > 0 {
      ContainsShort(s[1..], pat);
    }
  }

  /** Searching for a one-character pattern is membership. */
  lemma {:induction false} ContainsChar(s: string, c: char)
    ensures Contains(s, [c]) <==> c in s
    decreases |s|
  {
    if |s| > 0 {
      ContainsChar(s[1..], c);
      assert s == [s[0]] + s[1..];
    }
  }

  /** A string without a carriage return holds no CRLF. */
  lemma {:induction false} NoCarriageReturn(s: string)
    requires '\r' !in s
    ensures !Contains(s, CRLF)
    decreases |s|
  {
    if |s| > 0 {
      assert s[0] in s;
      NoCarriageReturn(s[1..]);
    }
  }

  /** Two CRLF-free texts put together hold no CRLF when the first does not
      end in a carriage return. */
  lemma {:induction false} NoCRLFAppend(a: string, b: string)
    requires !Contains(a, CRLF) && !Contains(b, CRLF)
    requires |a| == 0 || a[|a| - 1] != '\r'
    ensures !Contains(a + b, CRLF)
    decreases |a|
  {
    if |a| == 0 {
      assert a + b == b;
    } else {
      assert !StartsWith(a + b, CRLF) by {
        if |a| >= 2 {
          assert (a + b)[..2] == a[..2];
        } else {
          assert (a + b)[0] == a[0] == a[|a| - 1];
        }
      }
      assert (a + b)[1..] == a[1..] + b;
      NoCRLFAppend(a[1..], b);
    }
  }

  // ---------------------------------------------------------------------
  // split / join

  /** `s.split(sep).collect()`: the pieces between the leftmost
      non-overlapping occurrences of `sep`, empty pieces kept. */
  function Split(s: string, sep: string): (r: seq<string>)
    requires |sep| > 0
    ensures |r| > 0 && r[0] <= s
    decreases |s|
  {
    if |s| < |sep| then [s]
    else if s[..|sep|] == sep then [""] + Split(s[|sep|..], sep)
    else
      var rest := Split(s[1..], sep);
      [[s[0]] + rest[0]] + rest[1..]
  }

  /** `parts.join(sep)`: starts with the first part. */
  function Join(parts: seq<string>, sep: string): (r: string)
    ensures |parts| > 0 ==> parts[0] <= r
    decreases |parts|
  {
    if |parts| == 0 then ""
    else if |parts| == 1 then parts[0]
    else parts[0] + sep + Join(parts[1..], sep)
  }

  lemma JoinHead(x: string, y: string, rest: seq<string>, sep: string)
    ensures Join([x + y] + rest, sep) == x + Join([y] + rest, sep)
  {
    if |rest| > 0 {
      assert ([x + y] + rest)[1..] == rest;
      assert ([y] + rest)[1..] == rest;
    }
  }

  /** Joining the pieces of a split gives back the string. */
  lemma {:induction false} JoinSplit(s: string, sep: string)
    requires |sep| > 0
    ensures Join(Split(s, sep), sep) == s
    decreases |s|
  {
    if |s| < |sep| {
    } else if s[..|sep|] == sep {
      var tail := s[|sep|..];
      JoinSplit(tail, sep);
      var r := Split(tail, sep);
      assert ([""] + r)[1..] == r;
      assert s == sep + tail;
    } else {
      var rest := Split(s[1..], sep);
      JoinSplit(s[1..], sep);
      JoinHead([s[0]], rest[0], rest[1..], sep);
      assert [rest[0]] + rest[1..] == rest;
      assert s == [s[0]] + s[1..];
    }
  }

  /** No piece of a split holds the separator. */
  lemma {:induction false} SplitPiecesFree(s: string, sep: string)
    requires |sep| > 0
    ensures forall i :: 0 <= i < |Split(s, sep)| ==> !Contains(Split(s, sep)[i], sep)
    decreases |s|
  {
    if |s| < |sep| {
      ContainsShort(s, sep);
    } else if s[..|sep|] == sep {
      SplitPiecesFree(s[|sep|..], sep);
      assert !Contains("", sep);
    } else {
      var rest := Split(s[1..], sep);
      SplitPiecesFree(s[1..], sep);
      var p := [s[0]] + rest[0];
      assert p[1..] == rest[0];
      assert p <= s;
      assert |sep| <= |p| ==> s[..|sep|] == p[..|sep|];
      assert !Contains(p, sep);
    }
  }

  /** A string without the separator splits into itself alone. */
  lemma {:induction false} SplitNoSep(s: string, sep: string)
    requires |sep| > 0 && !Contains(s, sep)
    ensures Split(s, sep) == [s]
    decreases |s|
  {
    if |s| >= |sep| {
      assert !StartsWith(s, sep);
      SplitNoSep(s[1..], sep);
      assert s == [s[0]] + s[1..];
    }
  }

  /** Cutting at the first separator after a separator-free prefix. */
  lemma {:induction false} SplitPrefix(p: string, t: string, sep: string)
    requires |sep| > 0 && Borderless(sep) && !Contains(p, sep)
    ensures Split(p + sep + t, sep) == [p] + Split(t, sep)
    decreases |p|
  {
    var s := p + sep + t;
    if |p| == 0 {
      assert s == sep + t;
      assert s[..|sep|] == sep;
      assert s[|sep|..] == t;
    } else {
      if |p| >= |sep| {
        assert p[..|sep|] == s[..|sep|];
        assert !StartsWith(p, sep);
      } else {
        var k := |sep| - |p|;
        assert s[..|sep|] == p + sep[..k];
        assert s[..|sep|][|p|..] == sep[..k];
        assert sep[..k] != sep[|p|..];
      }
      assert s[..|sep|] != sep;
      assert !Contains(p[1..], sep);
      assert s[1..] == p[1..] + sep + t;
      SplitPrefix(p[1..], t, sep);
      assert [s[0]] + p[1..] == p;
    }
  }

  /** `split` undoes `join` when no piece holds the separator. */
  lemma {:induction false} SplitJoin(ps: seq<string>, sep: string)
    requires |sep| > 0 && Borderless(sep) && |ps| > 0
    requires forall i :: 0 <= i < |ps| ==> !Contains(ps[i], sep)
    ensures Split(Join(ps, sep), sep) == ps
    decreases |ps|
  {
    if |ps| == 1 {
      SplitNoSep(ps[0], sep);
    } else {
      SplitJoin(ps[1..], sep);
      SplitPrefix(ps[0], Join(ps[1..], sep), sep);
      assert [ps[0]] + ps[1..] == ps;
    }
  }

  lemma JoinThree(ps: seq<string>, sep: string)
    requires |ps| == 3
    ensures Join(ps, sep) == ps[0] + sep + ps[1] + sep + ps[2]
  {
    var tail := ps[1..];
    assert tail[1..] == [ps[2]];
    assert Join(tail, sep) == ps[1] + sep + ps[2];
  }

  lemma {:induction false} JoinAppend(xs: seq<string>, ys: seq<string>, sep: string)
    requires |xs| > 0 && |ys| > 0
    ensures Join(xs + ys, sep) == Join(xs, sep) + sep + Join(ys, sep)
    decreases |xs|
  {
    if |xs| == 1 {
      assert (xs + ys)[1..] == ys;
    } else {
      JoinAppend(xs[1..], ys, sep);
      assert (xs + ys)[1..] == xs[1..] + ys;
    }
  }

  lemma SplitPiecesFreeConcat(a: string, b: string, sep: string)
    requires |sep| > 0
    ensures var ps := Split(a, sep) + Split(b, sep);
      forall i :: 0 <= i < |ps| ==> !Contains(ps[i], sep)
  {
    var xs, ys := Split(a, sep), Split(b, sep);
    SplitPiecesFree(a, sep);
    SplitPiecesFree(b, sep);
    forall i | 0 <= i < |xs + ys| ensures !Contains((xs + ys)[i], sep) {
      if i >= |xs| {
        assert (xs + ys)[i] == ys[i - |xs|];
      }
    }
  }

  /** Splitting distributes over a separator. */
  lemma SplitConcat(a: string, b: string, sep: string)
    requires |sep| > 0 && Borderless(sep)
    ensures Split(a + sep + b, sep) == Split(a, sep) + Split(b, sep)
  {
    var xs, ys := Split(a, sep), Split(b, sep);
    JoinSplit(a, sep);
    JoinSplit(b, sep);
    JoinAppend(xs, ys, sep);
    SplitPiecesFreeConcat(a, b, sep);
    SplitJoin(xs + ys, sep);
  }

  /** Splitting on one character yields one more piece than there are
      occurrences of that character. */
  lemma {:induction false} SplitCharCount(s: string, c: char)
    ensures |Split(s, [c])| == multiset(s)[c] + 1
    decreases |s|
  {
    if |s| > 0 {
      SplitCharCount(s[1..], c);
      assert s == [s[0]] + s[1..];
      assert s[..1] == [s[0]];
    }
  }

  lemma CRLFBorderless()
    ensures Borderless(CRLF)
  {
    assert CRLF[..1] == "\r";
    assert CRLF[1..] == "\n";
  }

  // ---------------------------------------------------------------------
  // split_whitespace

  /** `char::is_whitespace`: the Unicode White_Space property. */
  predicate IsWhitespace(c: char) {
    ('\t' <= c <= '\r') || c == ' ' || c == '\U{0085}' || c == '\U{00A0}'
    || c == '\U{1680}' || ('\U{2000}' <= c <= '\U{200A}')
    || c == '\U{2028}' || c == '\U{2029}' || c == '\U{202F}'
    || c == '\U{205F}' || c == '\U{3000}'
  }

  predicate NoWhitespace(s: string) {
    forall i :: 0 <= i < |s| ==> !IsWhitespace(s[i])
  }

  /** A token of `split_whitespace`: non-empty, no whitespace in it. */
  predicate IsToken(s: string) {
    |s| > 0 && NoWhitespace(s)
  }

  /** Length of the longest whitespace-free prefix. */
  function WordLength(s: string): (n: nat)
    ensures n <= |s| && NoWhitespace(s[..n])
    ensures n < |s| ==> IsWhitespace(s[n])
    decreases |s|
  {
    if |s| == 0 || IsWhitespace(s[0]) then 0
    else
      var m := WordLength(s[1..]);
      assert s[..1 + m] == [s[0]] + s[1..][..m];
      1 + m
  }

  /** `s.split_whitespace().collect()`: maximal runs of non-whitespace. */
  function SplitWhitespace(s: string): (r: seq<string>)
    ensures forall i :: 0 <= i < |r| ==> IsToken(r[i])
    decreases |s|
  {
    if |s| == 0 then []
    else if IsWhitespace(s[0]) then SplitWhitespace(s[1..])
    else
      var n := WordLength(s);
      [s[..n]] + SplitWhitespace(s[n..])
  }

  /** The characters of `s` that are not whitespace, in order. */
  function NonWhitespace(s: string): string
    decreases |s|
  {
    if |s| == 0 then ""
    else if IsWhitespace(s[0]) then NonWhitespace(s[1..])
    else [s[0]] + NonWhitespace(s[1..])
  }

  function Concat(ps: seq<string>): string
    decreases |ps|
  {
    if |ps| == 0 then "" else ps[0] + Concat(ps[1..])
  }

  lemma {:induction false} NonWhitespaceAppend(a: string, b: string)
    ensures NonWhitespace(a + b) == NonWhitespace(a) + NonWhitespace(b)
    decreases |a|
  {
    if |a| > 0 {
      assert (a + b)[1..] == a[1..] + b;
      NonWhitespaceAppend(a[1..], b);
    } else {
      assert a + b == b;
    }
  }

  lemma {:induction false} NonWhitespaceOfWord(w: string)
    requires NoWhitespace(w)
    ensures NonWhitespace(w) == w
    decreases |w|
  {
    if |w| > 0 {
      NonWhitespaceOfWord(w[1..]);
      assert w == [w[0]] + w[1..];
    }
  }

  /** The tokens, put back to back, are exactly the non-whitespace
      characters of the input: nothing is lost or reordered. */
  lemma {:induction false} SplitWhitespaceKeepsText(s: string)
    ensures Concat(SplitWhitespace(s)) == NonWhitespace(s)
    decreases |s|
  {
    if |s| > 0 {
      if IsWhitespace(s[0]) {
        SplitWhitespaceKeepsText(s[1..]);
      } else {
        var n := WordLength(s);
        var toks := [s[..n]] + SplitWhitespace(s[n..]);
        SplitWhitespaceKeepsText(s[n..]);
        assert toks[1..] == SplitWhitespace(s[n..]);
        assert s == s[..n] + s[n..];
        NonWhitespaceAppend(s[..n], s[n..]);
        NonWhitespaceOfWord(s[..n]);
      }
    }
  }

  /** A token followed by nothing or by whitespace is split off whole. */
  lemma SplitWhitespaceWord(w: string, t: string)
    requires IsToken(w)
    requires |t| == 0 || IsWhitespace(t[0])
    ensures SplitWhitespace(w + t) == [w] + SplitWhitespace(t)
  {
    var s := w + t;
    assert s[..|w|] == w;
    assert s[|w|..] == t;
    var n := WordLength(s);
    assert forall i :: 0 <= i < |w| ==> s[i] == w[i];
    assert |t| > 0 ==> s[|w|] == t[0];
    assert n == |w|;
  }

  predicate AllWhitespace(s: string) {
    forall i :: 0 <= i < |s| ==> IsWhitespace(s[i])
  }

  /** Leading whitespace, however long, yields no token. */
  lemma {:induction false} SplitWhitespaceSkip(ws: string, t: string)
    requires AllWhitespace(ws)
    ensures SplitWhitespace(ws + t) == SplitWhitespace(t)
    decreases |ws|
  {
    if |ws| == 0 {
      assert ws + t == t;
    } else {
      assert (ws + t)[0] == ws[0];
      assert (ws + t)[1..] == ws[1..] + t;
      assert AllWhitespace(ws[1..]) by {
        assert forall i :: 0 <= i < |ws| - 1 ==> ws[1..][i] == ws[i + 1];
      }
      SplitWhitespaceSkip(ws[1..], t);
    }
  }

  /** `gaps[0] + tokens[0] + gaps[1] + ... + tokens[n-1] + gaps[n]`. */
  function Interleave(gaps: seq<string>, tokens: seq<string>): string
    requires |gaps| == |tokens| + 1
    decreases |tokens|
  {
    if |tokens| == 0 then gaps[0]
    else gaps[0] + tokens[0] + Interleave(gaps[1..], tokens[1..])
  }

  /** A line of tokens separated by runs of whitespace, with optional
      whitespace before the first and after the last. */
  predicate Spaced(gaps: seq<string>, tokens: seq<string>) {
    |gaps| == |tokens| + 1
    && (forall i :: 0 <= i < |tokens| ==> IsToken(tokens[i]))
    && (forall i :: 0 <= i < |gaps| ==> AllWhitespace(gaps[i]))
    && (forall i :: 0 < i < |tokens| ==> |gaps[i]| > 0)
  }

  /** A spaced line splits into its tokens, whatever whitespace separates
      them. */
  lemma {:induction false} SplitWhitespaceSpaced(gaps: seq<string>, tokens: seq<string>)
    requires Spaced(gaps, tokens)
    ensures SplitWhitespace(Interleave(gaps, tokens)) == tokens
    decreases |tokens|
  {
    if |tokens| == 0 {
      SplitWhitespaceSkip(gaps[0], "");
      assert gaps[0] + "" == gaps[0];
    } else {
      var rest := Interleave(gaps[1..], tokens[1..]);
      assert Spaced(gaps[1..], tokens[1..]) by {
        assert forall i :: 0 <= i < |tokens| - 1 ==> tokens[1..][i] == tokens[i + 1];
        assert forall i :: 0 <= i < |gaps| - 1 ==> gaps[1..][i] == gaps[i + 1];
      }
      SplitWhitespaceSpaced(gaps[1..], tokens[1..]);
      assert |rest| == 0 || IsWhitespace(rest[0]) by {
        if |tokens| == 1 {
          assert rest == gaps[1];
        } else {
          assert |gaps[1]| > 0;
          assert rest == gaps[1] + tokens[1] + Interleave(gaps[2..], tokens[2..]) by {
            assert gaps[1..][1..] == gaps[2..];
            assert tokens[1..][1..] == tokens[2..];
          }
          assert rest[0] == gaps[1][0];
        }
      }
      SplitWhitespaceWord(tokens[0], rest);
      assert gaps[0] + tokens[0] + rest == gaps[0] + (tokens[0] + rest);
      SplitWhitespaceSkip(gaps[0], tokens[0] + rest);
    }
  }

  /** A token, a space and the rest. */
  lemma SplitWhitespaceSpaceThen(a: string, t: string)
    requires IsToken(a)
    ensures SplitWhitespace(a + (" " + t)) == [a] + SplitWhitespace(t)
  {
    SplitWhitespaceSkip(" ", t);
    SplitWhitespaceWord(a, " " + t);
  }

  /** Three tokens separated by single spaces. */
  lemma SplitWhitespaceThree(a: string, b: string, c: string)
    requires IsToken(a) && IsToken(b) && IsToken(c)
    ensures SplitWhitespace(a + " " + b + " " + c) == [a, b, c]
  {
    SplitWhitespaceWord(c, "");
    assert c + "" == c;
    SplitWhitespaceSpaceThen(b, c);
    SplitWhitespaceSpaceThen(a, b + (" " + c));
    Nest5(a, " ", b, " ", c);
  }

  lemma Nest5(a: string, b: string, c: string, d: string, e: string)
    ensures a + b + c + d + e == a + (b + (c + (d + e)))
  {
    Assoc(a, b, c);
    Assoc(a + b + c, d, e);
    Assoc(a, b, c + (d + e));
    Assoc(b, c, d + e);
    Assoc(c, d, e);
  }

  /** Tokens joined by single spaces split back into the same tokens. */
  lemma {:induction false} SplitWhitespaceJoin(ws: seq<string>)
    requires forall i :: 0 <= i < |ws| ==> IsToken(ws[i])
    ensures SplitWhitespace(Join(ws, " ")) == ws
    decreases |ws|
  {
    if |ws| == 1 {
      SplitWhitespaceWord(ws[0], "");
      assert ws[0] + "" == ws[0];
    } else if |ws| > 1 {
      var t := Join(ws[1..], " ");
      SplitWhitespaceJoin(ws[1..]);
      assert ws[0] + " " + t == ws[0] + (" " + t);
      SplitWhitespaceWord(ws[0], " " + t);
      assert (" " + t)[1..] == t;
      assert [ws[0]] + ws[1..] == ws;
    }
  }

  // ---------------------------------------------------------------------
  // The text after the last occurrence of a character

  /** The longest suffix of `s` in which `c` does not occur. */
  function AfterLast(s: string, c: char): (r: string)
    ensures c !in r
    ensures |r| <= |s| && s[|s| - |r|..] == r
    ensures |r| < |s| ==> s[|s| - |r| - 1] == c
    decreases |s|
  {
    if |s| == 0 || s[|s| - 1] == c then ""
    else AfterLast(s[..|s| - 1], c) + [s[|s| - 1]]
  }

  /** After a `c`, a suffix free of `c` is what `AfterLast` yields. */
  lemma {:induction false} AfterLastOfSuffix(x: string, c: char, p: string)
    requires c !in p
    ensures AfterLast(x + [c] + p, c) == p
    decreases |p|
  {
    var s := x + [c] + p;
    if |p| == 0 {
      assert s[|s| - 1] == c;
    } else {
      var q := p[..|p| - 1];
      assert p[|p| - 1] in p;
      assert s[|s| - 1] == p[|p| - 1];
      assert s[..|s| - 1] == x + [c] + q;
      assert forall i :: 0 <= i < |q| ==> q[i] == p[i];
      AfterLastOfSuffix(x, c, q);
      assert q + [p[|p| - 1]] == p;
    }
  }

  // ---------------------------------------------------------------------
  // trim_start_matches

  /** `k` copies of `p` back to back. */
  function Repeat(p: string, k: nat): string
    decreases k
  {
    if k == 0 then "" else p + Repeat(p, k - 1)
  }

  /** `s.trim_start_matches(p)`: strips every leading repetition of `p`;
      what is left is no longer than `s` and no longer starts with `p`. */
  function TrimStartMatches(s: string, p: string): (r: string)
    ensures |r| <= |s|
    ensures |p| > 0 ==> !StartsWith(r, p)
    decreases |s|
  {
    if |p| > 0 && StartsWith(s, p) then TrimStartMatches(s[|p|..], p) else s
  }

  /** How many leading copies of `p` `TrimStartMatches` removes. */
  function TrimCount(s: string, p: string): nat
    decreases |s|
  {
    if |p| > 0 && StartsWith(s, p) then 1 + TrimCount(s[|p|..], p) else 0
  }

  lemma Assoc(a: string, b: string, c: string)
    ensures a + (b + c) == (a + b) + c
  {
  }

  lemma {:induction false} TrimStartMatchesCount(s: string, p: string)
    ensures s == Repeat(p, TrimCount(s, p)) + TrimStartMatches(s, p)
    decreases |s|
  {
    if |p| > 0 && StartsWith(s, p) {
      var t := s[|p|..];
      TrimStartMatchesCount(t, p);
      var k := TrimCount(t, p);
      var r := TrimStartMatches(t, p);
      assert s == p + t;
      Assoc(p, Repeat(p, k), r);
    } else {
      assert s == "" + s;
    }
  }

  /** What is left is `s` minus some number of leading copies of `p`. */
  lemma TrimStartMatchesShape(s: string, p: string)
    requires |p| > 0
    ensures exists k: nat :: s == Repeat(p, k) + TrimStartMatches(s, p)
  {
    TrimStartMatchesCount(s, p);
  }

  /** What is left is a suffix of the input. */
  lemma {:induction false} TrimStartMatchesSuffix(s: string, p: string)
    ensures s[|s| - |TrimStartMatches(s, p)|..] == TrimStartMatches(s, p)
    decreases |s|
  {
    if |p| > 0 && StartsWith(s, p) {
      TrimStartMatchesSuffix(s[|p|..], p);
    }
  }

  /** Conversely, any number of leading copies is removed, all of them. */
  lemma {:induction false} TrimStartMatchesRepeat(p: string, k: nat, r: string)
    requires |p| > 0 && !StartsWith(r, p)
    ensures TrimStartMatches(Repeat(p, k) + r, p) == r
    decreases k
  {
    if k > 0 {
      var s := Repeat(p, k) + r;
      assert s == p + (Repeat(p, k - 1) + r);
      assert StartsWith(s, p);
      assert s[|p|..] == Repeat(p, k - 1) + r;
      TrimStartMatchesRepeat(p, k - 1, r);
    } else {
      assert Repeat(p, k) + r == r;
    }
  }

  // ---------------------------------------------------------------------
  // iter().find(..), take_while(..)

  /** Line `i` is the first that starts with `prefix`. */
  predicate FirstWithPrefix(lines: seq<string>, i: nat, prefix: string)
    requires i < |lines|
  {
    StartsWith(lines[i], prefix) && forall j :: 0 <= j < i ==> !StartsWith(lines[j], prefix)
  }

  /** Index of the first line that starts with `prefix`, if any. */
  function FindPrefixed(lines: seq<string>, prefix: string): (r: Option<nat>)
    ensures r.Some? ==> r.value < |lines| && FirstWithPrefix(lines, r.value, prefix)
    ensures r.None? ==> forall j :: 0 <= j < |lines| ==> !StartsWith(lines[j], prefix)
    decreases |lines|
  {
    if |lines| == 0 then None
    else if StartsWith(lines[0], prefix) then Some(0)
    else match FindPrefixed(lines[1..], prefix)
      case None => None
      case Some(i) => Some(i + 1)
  }

  /** `lines.iter().take_while(|l| !l.is_empty())`: the lines before the
      first empty one. */
  function TakeNonEmpty(lines: seq<string>): (r: seq<string>)
    ensures r <= lines
    ensures forall i :: 0 <= i < |r| ==> r[i] != ""
    ensures |r| < |lines| ==> lines[|r|] == ""
    decreases |lines|
  {
    if |lines| == 0 || lines[0] == "" then []
    else [lines[0]] + TakeNonEmpty(lines[1..])
  }

  /** The run before a given empty line is the whole run. */
  lemma TakeNonEmptyUpTo(xs: seq<string>, ys: seq<string>)
    requires forall i :: 0 <= i < |xs| ==> xs[i] != ""
    ensures TakeNonEmpty(xs + [""] + ys) == xs
  {
    var lines := xs + [""] + ys;
    var r := TakeNonEmpty(lines);
    assert forall i :: 0 <= i < |xs| ==> lines[i] == xs[i];
    assert lines[|xs|] == "";
    assert |r| == |xs|;
    assert r == lines[..|r|];
  }

  // ---------------------------------------------------------------------
  // len(): UTF-8 byte length

  /** Bytes in the UTF-8 encoding of one Unicode scalar value. */
  function CharUtf8Length(c: char): (n: nat)
    ensures 1 <= n <= 4
    ensures n == 1 <==> c < '\U{0080}'
  {
    if c < '\U{0080}' then 1
    else if c < '\U{0800}' then 2
    else if c < '\U{10000}' then 3
    else 4
  }

  /** `s.len()`: the length in bytes of the UTF-8 encoding of `s`, between
      one and four bytes per character. */
  function Utf8Length(s: string): (n: nat)
    ensures |s| <= n <= 4 * |s|
    decreases |s|
  {
    if |s| == 0 then 0 else CharUtf8Length(s[0]) + Utf8Length(s[1..])
  }

  predicate IsAscii(s: string) {
    forall i :: 0 <= i < |s| ==> s[i] < '\U{0080}'
  }

  /** The byte length equals the character count exactly when the text is
      ASCII. */
  lemma {:induction false} Utf8LengthAscii(s: string)
    ensures Utf8Length(s) == |s| <==> IsAscii(s)
    decreases |s|
  {
    if |s| > 0 {
      Utf8LengthAscii(s[1..]);
      if IsAscii(s[1..]) && s[0] < '\U{0080}' {
        forall i | 0 <= i < |s| ensures s[i] < '\U{0080}' {
          if i > 0 {
            assert s[i] == s[1..][i - 1];
          }
        }
      }
      if IsAscii(s) {
        assert s[0] < '\U{0080}';
        forall i | 0 <= i < |s| - 1 ensures s[1..][i] < '\U{0080}' {
          assert s[1..][i] == s[i + 1];
        }
      }
    }
  }

  lemma {:induction false} Utf8LengthAppend(a: string, b: string)
    ensures Utf8Length(a + b) == Utf8Length(a) + Utf8Length(b)
    decreases |a|
  {
    if |a| > 0 {
      assert (a + b)[1..] == a[1..] + b;
      Utf8LengthAppend(a[1..], b);
    } else {
      assert a + b == b;
    }
  }

  // ---------------------------------------------------------------------
  // {} formatting of a usize, and parsing it back

  predicate IsDigit(c: char) {
    '0' <= c <= '9'
  }

  function DigitChar(d: nat): (c: char)
    requires d < 10
    ensures IsDigit(c)
  {
    (48 + d) as char
  }

  /** Decimal text of `n`, with no leading zeros. */
  function Decimal(n: nat): (r: string)
    ensures |r| > 0 && forall i :: 0 <= i < |r| ==> IsDigit(r[i])
    ensures |r| > 1 ==> r[0] != '0'
    decreases n
  {
    if n < 10 then [DigitChar(n)]
    else Decimal(n / 10) + [DigitChar(n % 10)]
  }

  /** Reads a non-empty run of decimal digits; any other text is `None`. */
  function ParseDecimal(s: string): Option<nat>
    decreases |s|
  {
    if |s| == 0 || !IsDigit(s[|s| - 1]) then None
    else
      var d := (s[|s| - 1] as int - 48) as nat;
      if |s| == 1 then Some(d)
      else match ParseDecimal(s[..|s| - 1])
        case None => None
        case Some(v) => Some(10 * v + d)
  }

  /** Parsing the decimal text of a number gives the number back. */
  lemma {:induction false} ParseDecimalOfDecimal(n: nat)
    ensures ParseDecimal(Decimal(n)) == Some(n)
    decreases n
  {
    if n >= 10 {
      var s := Decimal(n);
      ParseDecimalOfDecimal(n / 10);
      assert s[..|s| - 1] == Decimal(n / 10);
    }
  }
}
