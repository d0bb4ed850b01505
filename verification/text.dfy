/** Python string operations the minutes tool relies on, over `string` (= seq<char>). */
module Text {

  /** The characters Python's `str.isspace()` accepts; the regex class `\s` and
      `str.strip()` without arguments use the same set. */
  predicate IsSpace(c: char) {
    ('\t' <= c <= '\r') || ('\U{1C}' <= c <= ' ') || c == '\U{85}' || c == '\U{A0}'
    || c == '\U{1680}' || ('\U{2000}' <= c <= '\U{200A}') || c == '\U{2028}' || c == '\U{2029}'
    || c == '\U{202F}' || c == '\U{205F}' || c == '\U{3000}'
  }

  /** The regex class `\d`, restricted to ASCII digits. */
  predicate IsDigit(c: char) { '0' <= c <= '9' }

  /** The two characters `.strip("'\"")` removes. */
  predicate IsQuote(c: char) { c == '\'' || c == '"' }

  predicate IsStar(c: char) { c == '*' }

  /** ASCII lower-casing, used for case-insensitive matching. */
  function Lower(c: char): (d: char)
    ensures 'A' <= c <= 'Z' ==> 'a' <= d <= 'z'
    ensures !('A' <= c <= 'Z') ==> d == c
  {
    if 'A' <= c <= 'Z' then (c as int + 32) as char else c
  }

  function Min(a: int, b: int): int { if a <= b then a else b }

  predicate StartsWith(s: string, prefix: string) {
    |prefix| <= |s| && s[..|prefix|] == prefix
  }

  predicate EndsWith(s: string, suffix: string) {
    |suffix| <= |s| && s[|s| - |suffix|..] == suffix
  }

  /** `prefix` matches the start of `s` ignoring (ASCII) case. */
  predicate StartsWithCI(s: string, prefix: string) {
    |prefix| <= |s| && forall k :: 0 <= k < |prefix| ==> Lower(s[k]) == Lower(prefix[k])
  }

  /** Python's `sub in s`. */
  function Contains(s: string, sub: string): bool
    decreases |s|
  {
    StartsWith(s, sub) || (s != [] && Contains(s[1..], sub))
  }

  /** The suffixes of a text's tail are its own later suffixes. */
  lemma TailSuffixes(s: string)
    requires s != []
    ensures forall i :: 1 <= i <= |s| ==> s[1..][i - 1..] == s[i..]
  {
  }

  /** The first character followed by a prefix of the tail is a prefix. */
  lemma ConsPrefix(s: string, n: nat)
    requires s != [] && n < |s|
    ensures [s[0]] + s[1..][..n] == s[..n + 1]
  {
  }

  /** A suffix of the text without its last character, followed by that character, is a
      suffix of the text. */
  lemma SnocSuffix(s: string, n: nat)
    requires s != [] && n < |s|
    ensures s[..|s| - 1][|s| - 1 - n..] + [s[|s| - 1]] == s[|s| - 1 - n..]
  {
  }

  /** `sub in s` holds exactly when `sub` starts at some position of `s`. */
  lemma {:induction false} ContainsIff(s: string, sub: string)
    ensures Contains(s, sub) <==> exists i :: 0 <= i <= |s| && StartsWith(s[i..], sub)
    decreases |s|
  {
    assert s[0..] == s;
    if s != [] {
      ContainsIff(s[1..], sub);
      TailSuffixes(s);
      if exists i :: 0 <= i <= |s| && StartsWith(s[i..], sub) {
        var i :| 0 <= i <= |s| && StartsWith(s[i..], sub);
        if i > 0 {
          assert s[1..][i - 1..] == s[i..];
        }
      }
    }
  }

  /** What a suffix contains, the whole text contains. */
  lemma {:induction false} ContainsFrom(s: string, i: nat, sub: string)
    requires i <= |s| && Contains(s[i..], sub)
    ensures Contains(s, sub)
    decreases i
  {
    if i > 0 {
      assert s[1..][i - 1..] == s[i..];
      ContainsFrom(s[1..], i - 1, sub);
    } else {
      assert s[0..] == s;
    }
  }

  /** An occurrence of `sub` in `a + b` lies in `b` when `a` never holds the first character
      of `sub`. */
  lemma {:induction false} ContainsPastPrefix(a: string, b: string, sub: string)
    requires sub != [] && sub[0] !in a && Contains(a + b, sub)
    ensures Contains(b, sub)
    decreases |a|
  {
    if a == [] {
      assert a + b == b;
    } else {
      assert (a + b)[0] == a[0];
      assert !StartsWith(a + b, sub);
      assert (a + b)[1..] == a[1..] + b;
      ContainsPastPrefix(a[1..], b, sub);
    }
  }

  /** Drops the leading characters that satisfy `drop`. */
  function TrimStart(s: string, drop: char -> bool): (r: string)
    ensures |r| <= |s| && r == s[|s| - |r|..]
    ensures forall k :: 0 <= k < |s| - |r| ==> drop(s[k])
    ensures r == [] || !drop(r[0])
    decreases |s|
  {
    if s != [] && drop(s[0]) then TrimStart(s[1..], drop) else s
  }

  /** Drops the trailing characters that satisfy `drop`. */
  function TrimEnd(s: string, drop: char -> bool): (r: string)
    ensures |r| <= |s| && r == s[..|r|]
    ensures forall k :: |r| <= k < |s| ==> drop(s[k])
    ensures r == [] || !drop(r[|r| - 1])
    decreases |s|
  {
    if s != [] && drop(s[|s| - 1]) then TrimEnd(s[..|s| - 1], drop) else s
  }

  /** Neither end of `s` holds a character that satisfies `drop`. */
  predicate IsTrimmed(s: string, drop: char -> bool) {
    s == [] || (!drop(s[0]) && !drop(s[|s| - 1]))
  }

  /** The characters of a suffix occur in the whole text. */
  lemma InSuffix(s: string, i: nat)
    requires i <= |s|
    ensures forall c :: c in s[i..] ==> c in s
  {
    forall c | c in s[i..] ensures c in s {
      var k :| 0 <= k < |s| - i && s[i..][k] == c;
      assert s[i + k] == c;
    }
  }

  /** The characters of a prefix occur in the whole text, and it starts as the text does. */
  lemma InPrefix(s: string, n: nat)
    requires n <= |s|
    ensures forall c :: c in s[..n] ==> c in s
    ensures n > 0 ==> s[..n][0] == s[0]
  {
    forall c | c in s[..n] ensures c in s {
      var k :| 0 <= k < n && s[..n][k] == c;
      assert s[k] == c;
    }
  }

  /** Python's `s.strip(chars)` where `drop` says which characters are in `chars`. */
  function StripBy(s: string, drop: char -> bool): (r: string)
    ensures IsTrimmed(r, drop)
    ensures |r| <= |s| && forall c :: c in r ==> c in s
  {
    var t := TrimStart(s, drop);
    var r := TrimEnd(t, drop);
    InSuffix(s, |s| - |t|);
    InPrefix(t, |r|);
    r
  }

  /** Python's `s.strip()`. */
  function Strip(s: string): (r: string)
    ensures IsTrimmed(r, IsSpace) && |r| <= |s| && forall c :: c in r ==> c in s
  {
    StripBy(s, IsSpace)
  }

  /** The text up to (not including) the first newline: what `.*` matches without DOTALL. */
  function LineOf(s: string): (r: string)
    ensures |r| <= |s| && r == s[..|r|] && '\n' !in r
    ensures |r| < |s| ==> s[|r|] == '\n'
    decreases |s|
  {
    if s == [] || s[0] == '\n' then [] else [s[0]] + LineOf(s[1..])
  }

  /** Python's `s.split(c)[-1]`: the text after the last `c`, or all of `s`. */
  function AfterLast(s: string, c: char): (r: string)
    ensures |r| <= |s| && r == s[|s| - |r|..] && c !in r
    ensures |r| < |s| ==> s[|s| - |r| - 1] == c
    decreases |s|
  {
    if s == [] then []
    else if s[|s| - 1] == c then []
    else
      var r := AfterLast(s[..|s| - 1], c);
      SnocSuffix(s, |r|);
      r + [s[|s| - 1]]
  }

  /** Python's `s.split(c)[0]`: the text before the first `c`, or all of `s`. */
  function BeforeFirst(s: string, c: char): (r: string)
    ensures |r| <= |s| && r == s[..|r|] && c !in r
    ensures |r| < |s| ==> s[|r|] == c
    decreases |s|
  {
    if s == [] || s[0] == c then [] else [s[0]] + BeforeFirst(s[1..], c)
  }

  // ---- Lemmas about the helpers ----

  /** Trimming leading `drop` characters in front of a string that does not start with one. */
  lemma {:induction false} TrimStartPadded(pad: string, x: string, drop: char -> bool)
    requires forall k :: 0 <= k < |pad| ==> drop(pad[k])
    requires x == [] || !drop(x[0])
    ensures TrimStart(pad + x, drop) == x
    decreases |pad|
  {
    if pad == [] {
      assert pad + x == x;
    } else {
      assert (pad + x)[1..] == pad[1..] + x;
      TrimStartPadded(pad[1..], x, drop);
    }
  }

  /** When trimming stops inside `x`, what follows `x` is kept unchanged. */
  lemma {:induction false} TrimStartAppend(x: string, y: string, drop: char -> bool)
    requires TrimStart(x, drop) != []
    ensures TrimStart(x + y, drop) == TrimStart(x, drop) + y
    decreases |x|
  {
    assert x != [];
    if drop(x[0]) {
      assert (x + y)[1..] == x[1..] + y;
      TrimStartAppend(x[1..], y, drop);
    }
  }

  /** When `x` holds no `c` and `y` starts with a kept character other than `c`, trimming
      `x + y` stops at a character other than `c`. */
  lemma {:induction false} TrimStartFirst(x: string, y: string, drop: char -> bool, c: char)
    requires c !in x && y != [] && !drop(y[0]) && y[0] != c
    ensures TrimStart(x + y, drop) != [] && TrimStart(x + y, drop)[0] != c
    decreases |x|
  {
    if x == [] {
      assert x + y == y;
    } else if drop(x[0]) {
      assert (x + y)[1..] == x[1..] + y;
      TrimStartFirst(x[1..], y, drop, c);
    } else {
      assert (x + y)[0] == x[0];
    }
  }

  /** Trimming trailing `drop` characters after a string that does not end with one. */
  lemma {:induction false} TrimEndPadded(x: string, pad: string, drop: char -> bool)
    requires forall k :: 0 <= k < |pad| ==> drop(pad[k])
    requires x == [] || !drop(x[|x| - 1])
    ensures TrimEnd(x + pad, drop) == x
    decreases |pad|
  {
    if pad == [] {
      assert x + pad == x;
    } else {
      assert (x + pad)[..|x + pad| - 1] == x + pad[..|pad| - 1];
      TrimEndPadded(x, pad[..|pad| - 1], drop);
    }
  }

  /** `strip` removes exactly the padding around an already trimmed text. */
  lemma StripByPadded(pre: string, x: string, post: string, drop: char -> bool)
    requires forall k :: 0 <= k < |pre| ==> drop(pre[k])
    requires forall k :: 0 <= k < |post| ==> drop(post[k])
    requires IsTrimmed(x, drop)
    ensures StripBy(pre + x + post, drop) == x
  {
    if x == [] {
      assert pre + x + post == pre + post;
      TrimStartPadded(pre + post, [], drop);
      assert pre + post + [] == pre + post;
      TrimEndPadded([], [], drop);
    } else {
      assert pre + x + post == pre + (x + post);
      TrimStartPadded(pre, x + post, drop);
      TrimEndPadded(x, post, drop);
    }
  }

  /** `strip` is idempotent, and the identity on trimmed text. */
  lemma StripByIdempotent(s: string, drop: char -> bool)
    ensures StripBy(StripBy(s, drop), drop) == StripBy(s, drop)
  {
    var r := StripBy(s, drop);
    assert [] + r + [] == r;
    StripByPadded([], r, [], drop);
  }

  /** `strip` leaves a text without whitespace at either end unchanged. */
  lemma StripOfTrimmed(x: string)
    requires IsTrimmed(x, IsSpace)
    ensures Strip(x) == x
  {
    assert [] + x + [] == x;
    StripByPadded([], x, [], IsSpace);
  }

  /** The line of a text made of a newline-free line and what follows the newline. */
  lemma {:induction false} LineOfAppend(line: string, rest: string)
    requires '\n' !in line
    requires rest == [] || rest[0] == '\n'
    ensures LineOf(line + rest) == line
    decreases |line|
  {
    if line == [] {
      assert line + rest == rest;
    } else {
      assert (line + rest)[1..] == line[1..] + rest;
      LineOfAppend(line[1..], rest);
    }
  }

  /** `split(c)[-1]` of a text ending in `c`-free `tail` after a `c`. */
  lemma {:induction false} AfterLastAppend(head: string, c: char, tail: string)
    requires c !in tail
    ensures AfterLast(head + [c] + tail, c) == tail
    decreases |tail|
  {
    var s := head + [c] + tail;
    if tail == [] {
      assert s[|s| - 1] == c;
    } else {
      assert s[..|s| - 1] == head + [c] + tail[..|tail| - 1];
      assert s[|s| - 1] == tail[|tail| - 1];
      AfterLastAppend(head, c, tail[..|tail| - 1]);
      assert tail[..|tail| - 1] + [tail[|tail| - 1]] == tail;
    }
  }

  /** `split(c)[-1]` of a text without `c` is the whole text. */
  lemma {:induction false} AfterLastAbsent(s: string, c: char)
    requires c !in s
    ensures AfterLast(s, c) == s
    decreases |s|
  {
    if s != [] {
      AfterLastAbsent(s[..|s| - 1], c);
      InitLast(s);
    }
  }

  /** `split(c)[0]` of a text with a `c`-free head before a `c`. */
  lemma {:induction false} BeforeFirstAppend(head: string, c: char, tail: string)
    requires c !in head
    ensures BeforeFirst(head + [c] + tail, c) == head
    decreases |head|
  {
    if head != [] {
      assert (head + [c] + tail)[1..] == head[1..] + [c] + tail;
      BeforeFirstAppend(head[1..], c, tail);
    }
  }

  /** A non-empty text is its initial part followed by its last character. */
  lemma InitLast(s: string)
    requires s != []
    ensures s[..|s| - 1] + [s[|s| - 1]] == s
  {
  }

  /** A text starts with each of its prefixes. */
  lemma StartsWithConcat(a: string, b: string)
    ensures StartsWith(a + b, a)
  {
    assert (a + b)[..|a|] == a;
  }

  /** A text starts, ignoring case, with each of its prefixes. */
  lemma StartsWithCIConcat(a: string, b: string)
    ensures StartsWithCI(a + b, a)
  {
    assert forall k :: 0 <= k < |a| ==> (a + b)[k] == a[k];
  }

  /** Appending keeps a prefix. */
  lemma StartsWithExtend(a: string, p: string, b: string)
    requires StartsWith(a, p)
    ensures StartsWith(a + b, p)
  {
    assert (a + b)[..|p|] == a[..|p|];
  }

  /** Prepending the same text to both sides keeps a prefix. */
  lemma StartsWithBoth(q: string, s: string, p: string)
    requires StartsWith(s, p)
    ensures StartsWith(q + s, q + p)
  {
    assert (q + s)[..|q + p|] == q + s[..|p|];
  }

  // ---- Sequence facts used by the proofs ----

  /** Concatenation is associative. */
  lemma ConcatAssoc<T>(a: seq<T>, b: seq<T>, c: seq<T>)
    ensures a + (b + c) == (a + b) + c
  {
  }

  /** Four pieces concatenated left to right, regrouped to the right. */
  lemma Assoc4<T>(a: seq<T>, b: seq<T>, c: seq<T>, d: seq<T>)
    ensures a + b + c + d == a + (b + (c + d))
  {
  }

  /** Two single elements in front of a sequence. */
  lemma ConsTwo<T>(a: T, b: T, s: seq<T>)
    ensures [a] + ([b] + s) == [a, b] + s
  {
  }

  /** A non-empty sequence is its head followed by its tail. */
  lemma HeadTail<T>(s: seq<T>)
    requires s != []
    ensures [s[0]] + s[1..] == s
  {
  }

  /** The two halves of a concatenation. */
  lemma AppendSlices<T>(a: seq<T>, b: seq<T>)
    ensures (a + b)[..|a|] == a && (a + b)[|a|..] == b
  {
  }

  /** The empty sequence is a unit of concatenation. */
  lemma AppendEmpty<T>(s: seq<T>)
    ensures s + [] == s && [] + s == s
  {
  }

  /** Head and tail of a sequence with a given first element. */
  lemma DropHead<T>(m: T, y: seq<T>)
    ensures ([m] + y)[1..] == y && ([m] + y)[0] == m
  {
  }

  /** A suffix of a concatenation that starts inside its first part. */
  lemma SliceOfAppend<T>(a: seq<T>, b: seq<T>, n: nat)
    requires n <= |a|
    ensures (a + b)[n..] == a[n..] + b
  {
  }

  /** A suffix of a suffix of `t` is a suffix of `t`. */
  lemma SuffixOfSuffix<T>(t: seq<T>, u: seq<T>, v: seq<T>)
    requires |u| <= |t| && u == t[|t| - |u|..]
    requires |v| <= |u| && v == u[|u| - |v|..]
    ensures v == t[|t| - |v|..]
  {
  }

  /** A prefix extended by one element. */
  lemma TakeOneMore<T>(s: seq<T>, i: nat)
    requires i < |s|
    ensures s[..i + 1] == s[..i] + [s[i]]
  {
  }

  /** A text that differs from `p` at a position of `p` does not start with `p`. */
  lemma DiffersAt(u: string, p: string, i: nat)
    requires i < |p| && (i < |u| ==> u[i] != p[i])
    ensures !StartsWith(u, p)
  {
  }
}
