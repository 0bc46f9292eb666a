/**
 * The two pieces of Go's `strings` package the badge tool relies on:
 * `strings.Fields` (split around runs of white space) and
 * `strings.Replace(s, old, "", 1)` with a one-character `old`
 * (remove the first occurrence).  Strings are sequences of decoded
 * characters; the UTF-8 decoding of the file bytes is not modelled.
 */
module GoStrings {

  /**
   * `unicode.IsSpace`: the Latin-1 spaces plus the Unicode White_Space code
   * points, the last of which is U+3000.
   */
  predicate IsSpace(c: char)
    ensures IsSpace(c) ==> c as int <= 0x3000
  {
    var n := c as int;
    || (0x09 <= n <= 0x0D) || n == 0x20 || n == 0x85 || n == 0xA0
    || n == 0x1680 || (0x2000 <= n <= 0x200A)
    || n == 0x2028 || n == 0x2029 || n == 0x202F || n == 0x205F || n == 0x3000
  }

  /**
   * Among ASCII characters the spaces are exactly tab, newline, vertical
   * tab, form feed, carriage return and space.
   */
  lemma AsciiSpaces(c: char)
    requires c as int < 0x80
    ensures IsSpace(c) <==> c in "\t\n\U{000B}\U{000C}\r "
  {
  }

  /** A field: a non-empty run of non-space characters. */
  predicate IsWord(w: string) {
    |w| > 0 && forall k :: 0 <= k < |w| ==> !IsSpace(w[k])
  }

  /** The string holds at least one non-space character. */
  predicate HasWord(s: string) {
    exists k :: 0 <= k < |s| && !IsSpace(s[k])
  }

  /** Length of the run of non-space characters that starts `s`. */
  function WordLen(s: string): (n: nat)
    ensures n <= |s|
    ensures forall k :: 0 <= k < n ==> !IsSpace(s[k])
    ensures n < |s| ==> IsSpace(s[n])
  {
    if s == [] || IsSpace(s[0]) then 0 else 1 + WordLen(s[1..])
  }

  /**
   * `strings.Fields`: the maximal runs of non-space characters of `s`, in order.
   * The result is empty exactly when `s` is all white space.
   */
  function Fields(s: string): (r: seq<string>)
    ensures forall i :: 0 <= i < |r| ==> IsWord(r[i])
    ensures r == [] <==> !HasWord(s)
    decreases |s|
  {
    if s == [] then []
    else if IsSpace(s[0]) then
      var r := Fields(s[1..]);
      assert HasWord(s[1..]) ==> HasWord(s) by {
        if HasWord(s[1..]) {
          var k :| 0 <= k < |s[1..]| && !IsSpace(s[1..][k]);
          assert s[k + 1] == s[1..][k];
        }
      }
      r
    else
      var n := WordLen(s);
      assert HasWord(s) by { assert !IsSpace(s[0]); }
      [s[..n]] + Fields(s[n..])
  }

  /**
   * `s[i..j]` is the LAST maximal run of non-space characters of `s`:
   * it is a word, it is preceded by a space or the start of `s`, and
   * only white space follows it.
   */
  ghost predicate LastWordAt(s: string, i: nat, j: nat) {
    && i < j <= |s|
    && (forall k :: i <= k < j ==> !IsSpace(s[k]))
    && (i == 0 || IsSpace(s[i - 1]))
    && (forall k :: j <= k < |s| ==> IsSpace(s[k]))
  }

  /** The last maximal run is unique. */
  lemma LastWordUnique(s: string, i: nat, j: nat, i': nat, j': nat)
    requires LastWordAt(s, i, j) && LastWordAt(s, i', j')
    ensures i == i' && j == j'
  {
    assert !IsSpace(s[j' - 1]) && !IsSpace(s[j - 1]);
    if i > 0 {
      assert IsSpace(s[i - 1]);
    }
    if i' > 0 {
      assert IsSpace(s[i' - 1]);
    }
  }

  /** A last run of a suffix `s[n..]` is the last run of `s` once its start is a run start in `s`. */
  lemma LastWordOfSuffix(s: string, n: nat, i: nat, j: nat)
    requires n <= |s| && LastWordAt(s[n..], i, j)
    requires i > 0 || n == 0 || IsSpace(s[n - 1])
    ensures LastWordAt(s, i + n, j + n)
    ensures s[i + n..j + n] == s[n..][i..j]
  {
  }

  /** A leading space contributes no field. */
  lemma FieldsSkipSpace(s: string)
    requires s != [] && IsSpace(s[0]) && HasWord(s)
    ensures HasWord(s[1..])
    ensures Fields(s) == Fields(s[1..])
  {
  }

  /** A leading word is the first field; the rest are the fields after it. */
  lemma FieldsTakeWord(s: string)
    requires s != [] && !IsSpace(s[0])
    ensures 0 < WordLen(s)
    ensures Fields(s) == [s[..WordLen(s)]] + Fields(s[WordLen(s)..])
    ensures HasWord(s)
    ensures HasWord(s[WordLen(s)..]) ==>
      Fields(s)[|Fields(s)| - 1] == Fields(s[WordLen(s)..])[|Fields(s[WordLen(s)..])| - 1]
    ensures !HasWord(s[WordLen(s)..]) ==> Fields(s)[|Fields(s)| - 1] == s[0..WordLen(s)]
  {
    var n := WordLen(s);
    var rest := Fields(s[n..]);
    assert Fields(s) == [s[..n]] + rest;
    if rest == [] {
      assert Fields(s) == [s[..n]];
    }
  }

  /** A word that is followed only by white space is the last run. */
  lemma OnlyWordIsLast(s: string, n: nat)
    requires 0 < n == WordLen(s) && !HasWord(s[n..])
    ensures LastWordAt(s, 0, n)
  {
  }

  /** The last element of `Fields(s)` is the last maximal run of non-space characters of `s`. */
  lemma {:induction false} LastFieldIsLastWord(s: string) returns (i: nat, j: nat)
    requires HasWord(s)
    ensures LastWordAt(s, i, j)
    ensures Fields(s)[|Fields(s)| - 1] == s[i..j]
    decreases |s|, 1
  {
    if IsSpace(s[0]) {
      i, j := LastFieldAfterSpace(s);
    } else {
      i, j := LastFieldAfterWord(s);
    }
  }

  lemma {:induction false} LastFieldAfterSpace(s: string) returns (i: nat, j: nat)
    requires HasWord(s) && IsSpace(s[0])
    ensures LastWordAt(s, i, j)
    ensures Fields(s)[|Fields(s)| - 1] == s[i..j]
    decreases |s|, 0
  {
    FieldsSkipSpace(s);
    var i0, j0 := LastFieldIsLastWord(s[1..]);
    LastFieldAfterLeadingSpace(s, i0, j0);
    i, j := i0 + 1, j0 + 1;
  }

  /** After a leading space, the last field and the last run are those of the rest. */
  lemma LastFieldAfterLeadingSpace(s: string, i: nat, j: nat)
    requires s != [] && IsSpace(s[0]) && HasWord(s[1..]) && LastWordAt(s[1..], i, j)
    requires Fields(s[1..])[|Fields(s[1..])| - 1] == s[1..][i..j]
    ensures LastWordAt(s, i + 1, j + 1)
    ensures Fields(s)[|Fields(s)| - 1] == s[i + 1..j + 1]
  {
    assert Fields(s) == Fields(s[1..]);
    LastWordOfSuffix(s, 1, i, j);
  }

  lemma {:induction false} LastFieldAfterWord(s: string) returns (i: nat, j: nat)
    requires HasWord(s) && !IsSpace(s[0])
    ensures LastWordAt(s, i, j)
    ensures Fields(s)[|Fields(s)| - 1] == s[i..j]
    decreases |s|, 0
  {
    var n := WordLen(s);
    LeadingWordLen(s);
    var rest := s[n..];
    if HasWord(rest) {
      var i0, j0 := LastFieldIsLastWord(rest);
      i, j := LastFieldAfterLeadingWord(s, n, i0, j0);
    } else {
      i, j := LastFieldIsOnlyWord(s, n);
    }
  }

  /** A string that starts with a non-space character starts with a non-empty word. */
  lemma LeadingWordLen(s: string)
    requires s != [] && !IsSpace(s[0])
    ensures 0 < WordLen(s) <= |s|
  {
  }

  /** When a leading word is followed by more words, the last field is the last run of what follows. */
  lemma LastFieldAfterLeadingWord(s: string, n: nat, i0: nat, j0: nat) returns (i: nat, j: nat)
    requires s != [] && !IsSpace(s[0]) && n == WordLen(s)
    requires HasWord(s[n..]) && LastWordAt(s[n..], i0, j0)
    requires Fields(s[n..])[|Fields(s[n..])| - 1] == s[n..][i0..j0]
    ensures i == i0 + n && j == j0 + n
    ensures LastWordAt(s, i, j)
    ensures Fields(s)[|Fields(s)| - 1] == s[i..j]
  {
    FieldsTakeWord(s);
    LastWordAfterWord(s, n, i0, j0);
    i, j := i0 + n, j0 + n;
    var last := Fields(s)[|Fields(s)| - 1];
    assert last == Fields(s[n..])[|Fields(s[n..])| - 1];
    assert last == s[n..][i0..j0];
  }

  /** When a leading word is followed only by white space, it is the last field and the last run. */
  lemma LastFieldIsOnlyWord(s: string, n: nat) returns (i: nat, j: nat)
    requires s != [] && !IsSpace(s[0]) && n == WordLen(s) && !HasWord(s[n..])
    ensures i == 0 && j == n
    ensures LastWordAt(s, i, j)
    ensures Fields(s)[|Fields(s)| - 1] == s[i..j]
  {
    FieldsTakeWord(s);
    OnlyWordIsLast(s, n);
    i, j := 0, n;
  }

  /** The last run of what follows a leading word is the last run of the whole string. */
  lemma LastWordAfterWord(s: string, n: nat, i: nat, j: nat)
    requires 0 < n == WordLen(s) && n <= |s| && LastWordAt(s[n..], i, j)
    ensures LastWordAt(s, i + n, j + n)
    ensures s[i + n..j + n] == s[n..][i..j]
  {
    assert i > 0 by { assert s[n..][0] == s[n]; }
    LastWordOfSuffix(s, n, i, j);
  }

  /** Index of the first `c` in `s`, or `|s|` when `s` holds no `c`. */
  function FirstIndex(s: string, c: char): (i: nat)
    ensures i <= |s|
    ensures c !in s[..i]
    ensures i < |s| ==> s[i] == c
    ensures i == |s| <==> c !in s
  {
    if s == [] then 0
    else if s[0] == c then 0
    else
      var i := 1 + FirstIndex(s[1..], c);
      assert s[..i] == [s[0]] + s[1..][..i - 1];
      i
  }

  /**
   * `strings.Replace(s, string(c), "", 1)`: drop the first `c`, keep every
   * other character (later occurrences of `c` included) in order.
   */
  function RemoveFirst(s: string, c: char): (r: string)
    ensures c !in s ==> r == s
    ensures c in s ==> |r| == |s| - 1
    ensures multiset(r) == multiset(s) - multiset{c}
  {
    var i := FirstIndex(s, c);
    if i == |s| then s
    else
      assert s == s[..i] + [c] + s[i + 1..];
      s[..i] + s[i + 1..]
  }

  /** The first `c` of `p + [c] + q` is the inserted one when `p` holds no `c`. */
  lemma FirstIndexAfter(p: string, c: char, q: string)
    requires c !in p
    ensures FirstIndex(p + [c] + q, c) == |p|
  {
    var s := p + [c] + q;
    assert s[|p|] == c && s[..|p|] == p;
  }

  /** Removing the first `c` undoes inserting a `c` in front of a `c`-free prefix. */
  lemma RemoveFirstInverse(p: string, c: char, q: string)
    requires c !in p
    ensures RemoveFirst(p + [c] + q, c) == p + q
  {
    CutAtFirst(p, c, q);
  }

  /** Cutting `p + [c] + q` at its first `c`, with `p` free of `c`, gives back `p` and `q`. */
  lemma CutAtFirst(p: string, c: char, q: string)
    requires c !in p
    ensures FirstIndex(p + [c] + q, c) == |p|
    ensures (p + [c] + q)[..|p|] == p && (p + [c] + q)[|p| + 1..] == q
  {
    var s := p + [c] + q;
    FirstIndexAfter(p, c, q);
    assert s[..|p|] == p && s[|p| + 1..] == q;
  }

  /** `w` is the last maximal run of non-space characters of `s`. */
  ghost predicate IsLastWord(s: string, w: string) {
    exists i: nat, j: nat :: LastWordAt(s, i, j) && s[i..j] == w
  }

  /** The last element of `strings.Fields(s)`; only defined when there is one. */
  function LastField(s: string): (w: string)
    requires HasWord(s)
    ensures IsWord(w)
    ensures IsLastWord(s, w)
  {
    var fs := Fields(s);
    var w := fs[|fs| - 1];
    LastFieldExists(s);
    w
  }

  /** The last element of `Fields(s)` is a last word of `s`. */
  lemma LastFieldExists(s: string)
    requires HasWord(s)
    ensures IsLastWord(s, Fields(s)[|Fields(s)| - 1])
  {
    var i, j := LastFieldIsLastWord(s);
  }

  /** A string has at most one last word. */
  lemma IsLastWordUnique(s: string, w: string, w': string)
    requires IsLastWord(s, w) && IsLastWord(s, w')
    ensures w == w'
  {
    var i: nat, j: nat :| LastWordAt(s, i, j) && s[i..j] == w;
    var i': nat, j': nat :| LastWordAt(s, i', j') && s[i'..j'] == w';
    LastWordUnique(s, i, j, i', j');
  }
}
