/**
 * Text primitives the profile page relies on: the ECMAScript whitespace
 * class (shared by `String.prototype.trim` and the regular-expression
 * class `\s`), lower-casing, `trim`, `includes`, and the whitespace-run
 * replacement `replace(/\s+/g, '-')` that turns an area name into an id.
 */
module Strings {

  /** ECMAScript WhiteSpace and LineTerminator code points: exactly what
      `trim` removes and what `\s` matches. */
  predicate IsSpace(c: char) {
    || c == '\U{0009}' || c == '\U{000A}' || c == '\U{000B}' || c == '\U{000C}'
    || c == '\U{000D}' || c == '\U{0020}' || c == '\U{00A0}' || c == '\U{1680}'
    || ('\U{2000}' <= c <= '\U{200A}')
    || c == '\U{2028}' || c == '\U{2029}' || c == '\U{202F}' || c == '\U{205F}'
    || c == '\U{3000}' || c == '\U{FEFF}'
  }

  predicate AllSpace(s: string) {
    forall k :: 0 <= k < |s| ==> IsSpace(s[k])
  }

  predicate NoSpace(s: string) {
    forall k :: 0 <= k < |s| ==> !IsSpace(s[k])
  }

  /** `toLowerCase` on one character, restricted to the ASCII letters. */
  function LowerChar(c: char): (d: char)
    ensures 'A' <= c <= 'Z' ==> d as int == c as int + ('a' as int - 'A' as int) && 'a' <= d <= 'z'
    ensures !('A' <= c <= 'Z') ==> d == c
    ensures !('A' <= d <= 'Z')
    ensures IsSpace(d) <==> IsSpace(c)
  {
    if 'A' <= c <= 'Z' then (c as int + 32) as char else c
  }

  /** `toLowerCase` on a string, character by character. */
  function Lower(s: string): string {
    seq(|s|, k requires 0 <= k < |s| => LowerChar(s[k]))
  }

  lemma LowerAppend(a: string, b: string)
    ensures Lower(a + b) == Lower(a) + Lower(b)
  {
  }

  /** Two characters that are equal or are the capital and small form of
      the same ASCII letter. */
  predicate SameLetter(c: char, d: char) {
    || c == d
    || ('A' <= c <= 'Z' && d as int == c as int + ('a' as int - 'A' as int))
    || ('A' <= d <= 'Z' && c as int == d as int + ('a' as int - 'A' as int))
  }

  /** Two strings that differ only in the ASCII case of some letters. */
  predicate SameUpToCase(s: string, t: string) {
    |s| == |t| && forall k :: 0 <= k < |s| ==> SameLetter(s[k], t[k])
  }

  /** Lower-casing identifies exactly the strings that differ only in ASCII
      case. */
  lemma LowerIgnoresCase(s: string, t: string)
    ensures Lower(s) == Lower(t) <==> SameUpToCase(s, t)
  {
    if Lower(s) == Lower(t) {
      forall k | 0 <= k < |s|
        ensures SameLetter(s[k], t[k])
      {
        assert LowerChar(s[k]) == Lower(s)[k] == Lower(t)[k] == LowerChar(t[k]);
      }
    }
    if SameUpToCase(s, t) {
      forall k | 0 <= k < |s|
        ensures Lower(s)[k] == Lower(t)[k]
      {
        assert SameLetter(s[k], t[k]);
      }
    }
  }

  /** Lower-casing twice is lower-casing once. */
  lemma LowerIdempotent(s: string)
    ensures Lower(Lower(s)) == Lower(s)
  {
  }

  /** How many whitespace characters open `s`. */
  function LeadingSpaces(s: string): (n: nat)
    ensures n <= |s|
    ensures forall k :: 0 <= k < n ==> IsSpace(s[k])
    ensures n < |s| ==> !IsSpace(s[n])
  {
    if s != [] && IsSpace(s[0]) then 1 + LeadingSpaces(s[1..]) else 0
  }

  /** How many whitespace characters close `s`. */
  function TrailingSpaces(s: string): (n: nat)
    ensures n <= |s|
    ensures forall k :: |s| - n <= k < |s| ==> IsSpace(s[k])
    ensures n < |s| ==> !IsSpace(s[|s| - n - 1])
  {
    if s != [] && IsSpace(s[|s| - 1]) then 1 + TrailingSpaces(s[..|s| - 1]) else 0
  }

  /** The two facts above pin the count down: any `n` with a whitespace prefix
      of length `n` followed by a non-space (or the end) is the count. */
  lemma LeadingSpacesUnique(s: string, n: nat)
    requires n <= |s|
    requires forall k :: 0 <= k < n ==> IsSpace(s[k])
    requires n < |s| ==> !IsSpace(s[n])
    ensures LeadingSpaces(s) == n
  {
  }

  /** Leading whitespace removed. */
  function TrimStart(s: string): string {
    s[LeadingSpaces(s)..]
  }

  /** Trailing whitespace removed. */
  function TrimEnd(s: string): string {
    s[..|s| - TrailingSpaces(s)]
  }

  /** `trim`: both ends. */
  function Trim(s: string): string {
    TrimEnd(TrimStart(s))
  }

  /** `trim` yields an infix of its input with only whitespace cut off on
      either side. */
  lemma TrimIsInfix(s: string)
    ensures exists i, j :: 0 <= i <= j <= |s| && Trim(s) == s[i..j]
                           && AllSpace(s[..i]) && AllSpace(s[j..])
  {
    var i := LeadingSpaces(s);
    var t := s[i..];
    var j := i + |t| - TrailingSpaces(t);
    assert Trim(s) == s[i..j];
    assert forall k :: 0 <= k < |s| - j ==> s[j..][k] == t[|t| - TrailingSpaces(t) + k];
  }

  /** `trim` leaves no whitespace at either end of its result. */
  lemma TrimEndsNonSpace(s: string)
    requires Trim(s) != []
    ensures !IsSpace(Trim(s)[0]) && !IsSpace(Trim(s)[|Trim(s)| - 1])
  {
  }

  /** `trim` gives the empty string exactly when its input is all whitespace. */
  lemma TrimEmptyIff(s: string)
    ensures Trim(s) == [] <==> AllSpace(s)
  {
    if Trim(s) != [] {
      TrimEndsNonSpace(s);
    }
  }

  /** `term` occurs in `text` starting at offset `i`. */
  predicate OccursAt(text: string, term: string, i: int) {
    0 <= i && i + |term| <= |text| && text[i..i + |term|] == term
  }

  /** `text.includes(term)`: whether `term` occurs in `text` at some offset. */
  function Includes(text: string, term: string): (r: bool)
    ensures r <==> exists i :: OccursAt(text, term, i)
    decreases |text|
  {
    if |term| > |text| then false
    else if text[..|term|] == term then assert OccursAt(text, term, 0); true
    else
      var r := Includes(text[1..], term);
      assert r ==> exists i :: OccursAt(text, term, i) by {
        if r {
          var i :| OccursAt(text[1..], term, i);
          assert text[1..][i..i + |term|] == text[i + 1..i + 1 + |term|];
          assert OccursAt(text, term, i + 1);
        }
      }
      assert (exists i :: OccursAt(text, term, i)) ==> r by {
        if i :| OccursAt(text, term, i) {
          assert i != 0;
          assert text[1..][i - 1..i - 1 + |term|] == text[i..i + |term|];
          assert OccursAt(text[1..], term, i - 1);
        }
      }
      r
  }

  /** An occurrence inside the left or right part of a concatenation is an
      occurrence in the whole. */
  lemma IncludesInConcat(a: string, b: string, term: string)
    ensures Includes(a, term) ==> Includes(a + b, term)
    ensures Includes(b, term) ==> Includes(a + b, term)
  {
    if Includes(a, term) {
      var i :| OccursAt(a, term, i);
      assert (a + b)[i..i + |term|] == a[i..i + |term|];
      assert OccursAt(a + b, term, i);
    }
    if Includes(b, term) {
      var i :| OccursAt(b, term, i);
      assert (a + b)[|a| + i..|a| + i + |term|] == b[i..i + |term|];
      assert OccursAt(a + b, term, |a| + i);
    }
  }

  /** Occurrence is transitive: a text that contains `longer` contains
      everything `longer` contains. */
  lemma IncludesTransitive(text: string, longer: string, term: string)
    requires Includes(text, longer) && Includes(longer, term)
    ensures Includes(text, term)
  {
  }

  /** `replace(/\s+/g, '-')`: every maximal run of whitespace becomes a
      single hyphen; every other character is kept. */
  function Slug(s: string): (r: string)
    ensures NoSpace(r)
    ensures |r| <= |s|
    decreases |s|
  {
    if s == [] then []
    else if IsSpace(s[0]) then "-" + Slug(TrimStart(s))
    else [s[0]] + Slug(s[1..])
  }

  /** A string without whitespace is left as it is. */
  lemma {:induction false} SlugKeepsSpaceFree(s: string)
    requires NoSpace(s)
    ensures Slug(s) == s
    decreases |s|
  {
    if s != [] {
      SlugKeepsSpaceFree(s[1..]);
      assert s == [s[0]] + s[1..];
    }
  }

  /** Replacing whitespace runs a second time changes nothing. */
  lemma SlugIdempotent(s: string)
    ensures Slug(Slug(s)) == Slug(s)
  {
    SlugKeepsSpaceFree(Slug(s));
  }

  /** A non-empty run made only of whitespace becomes one hyphen. */
  lemma SlugOfRun(s: string)
    requires s != [] && AllSpace(s)
    ensures Slug(s) == "-"
  {
    LeadingSpacesUnique(s, |s|);
  }

  lemma TrimStartAppend(a: string, b: string)
    requires !AllSpace(a)
    ensures TrimStart(a + b) == TrimStart(a) + b
  {
    var n := LeadingSpaces(a);
    LeadingSpacesUnique(a + b, n);
  }

  lemma TrimStartFromSpaces(a: string, b: string)
    requires AllSpace(a) && (b == [] || !IsSpace(b[0]))
    ensures TrimStart(a + b) == b
  {
    LeadingSpacesUnique(a + b, |a|);
  }

  /** Cutting leading whitespace off a string that is not all whitespace keeps
      its last character. */
  lemma TrimStartKeepsLast(a: string)
    requires !AllSpace(a)
    ensures TrimStart(a) != [] && TrimStart(a)[|TrimStart(a)| - 1] == a[|a| - 1]
  {
  }

  /** The replacement distributes over a concatenation that does not glue two
      whitespace runs together. */
  lemma {:induction false} SlugAppend(a: string, b: string)
    requires a == [] || !IsSpace(a[|a| - 1]) || b == [] || !IsSpace(b[0])
    ensures Slug(a + b) == Slug(a) + Slug(b)
    decreases |a|
  {
    if a == [] {
      assert a + b == b;
    } else if !IsSpace(a[0]) {
      SlugAppendWord(a, b);
    } else if AllSpace(a) {
      SlugAppendRun(a, b);
    } else {
      SlugAppendSpaced(a, b);
    }
  }

  lemma {:induction false} SlugAppendSpaced(a: string, b: string)
    requires a != [] && IsSpace(a[0]) && !AllSpace(a)
    requires !IsSpace(a[|a| - 1]) || b == [] || !IsSpace(b[0])
    ensures Slug(a + b) == Slug(a) + Slug(b)
    decreases |a|, 0
  {
    var t := TrimStart(a);
    assert (a + b)[0] == a[0];
    TrimStartKeepsLast(a);
    calc {
      Slug(a + b);
      == { SlugUnfold(a + b); }
      "-" + Slug(TrimStart(a + b));
      == { TrimStartAppend(a, b); }
      "-" + Slug(t + b);
      == { SlugAppend(t, b); }
      "-" + (Slug(t) + Slug(b));
      == { AppendAssoc("-", Slug(t), Slug(b)); }
      ("-" + Slug(t)) + Slug(b);
      == { SlugUnfold(a); }
      Slug(a) + Slug(b);
    }
  }

  lemma SlugUnfold(s: string)
    requires s != []
    ensures Slug(s) == if IsSpace(s[0]) then "-" + Slug(TrimStart(s)) else [s[0]] + Slug(s[1..])
  {
  }

  lemma {:induction false} SlugAppendWord(a: string, b: string)
    requires a != [] && !IsSpace(a[0])
    requires !IsSpace(a[|a| - 1]) || b == [] || !IsSpace(b[0])
    ensures Slug(a + b) == Slug(a) + Slug(b)
    decreases |a|, 0
  {
    var rest := a[1..];
    assert (a + b)[0] == a[0] && (a + b)[1..] == rest + b;
    assert rest == [] || rest[|rest| - 1] == a[|a| - 1];
    calc {
      Slug(a + b);
      == { SlugUnfold(a + b); }
      [a[0]] + Slug(rest + b);
      == { SlugAppend(rest, b); }
      [a[0]] + (Slug(rest) + Slug(b));
      == { AppendAssoc([a[0]], Slug(rest), Slug(b)); }
      ([a[0]] + Slug(rest)) + Slug(b);
      == { SlugUnfold(a); }
      Slug(a) + Slug(b);
    }
  }

  lemma SlugAppendRun(a: string, b: string)
    requires a != [] && AllSpace(a)
    requires b == [] || !IsSpace(b[0])
    ensures Slug(a + b) == Slug(a) + Slug(b)
  {
    SlugOfRun(a);
    TrimStartFromSpaces(a, b);
    SlugUnfold(a + b);
  }

  /** The defining property of the replacement: a maximal whitespace run between
      two words becomes exactly one hyphen, whatever its length or kind. */
  lemma SlugCollapsesRun(left: string, run: string, right: string)
    requires left == [] || !IsSpace(left[|left| - 1])
    requires run != [] && AllSpace(run)
    requires right == [] || !IsSpace(right[0])
    ensures Slug(left + run + right) == Slug(left) + "-" + Slug(right)
  {
    calc {
      Slug(left + run + right);
      == { AppendAssoc(left, run, right); }
      Slug(left + (run + right));
      == { SlugAppend(left, run + right); }
      Slug(left) + Slug(run + right);
      == { SlugAppend(run, right); SlugOfRun(run); }
      Slug(left) + ("-" + Slug(right));
      == { AppendAssoc(Slug(left), "-", Slug(right)); }
      Slug(left) + "-" + Slug(right);
    }
  }

  lemma AppendAssoc<T>(x: seq<T>, y: seq<T>, z: seq<T>)
    ensures x + (y + z) == (x + y) + z
  {
  }
}
