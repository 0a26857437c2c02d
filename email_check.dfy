/**
 * The email sanity check of the early-access endpoint: the pattern
 * ^[^\s@]+@[^\s@]+\.[^\s@]+$ together with a length bound of 254.
 *
 * The pattern is read as a search over the positions of its literal '@' and
 * '.', which is what a backtracking matcher does; the lemmas below prove it
 * equal to a split-based reading (no whitespace, exactly one '@' and not
 * first, a '.' strictly inside the part after the '@').
 */
module EmailCheck {

  /** The longest email accepted, in UTF-16 code units. */
  const MaxLength := 254

  /** ECMAScript `\s`: the WhiteSpace and LineTerminator code points
      (the Zs category as of current Unicode). */
  predicate IsSpace(c: char) {
    || c == '\t' || c == '\n' || c == '\U{000B}' || c == '\U{000C}' || c == '\r'
    || c == ' ' || c == '\U{00A0}' || c == '\U{1680}'
    || ('\U{2000}' <= c <= '\U{200A}')
    || c == '\U{2028}' || c == '\U{2029}' || c == '\U{202F}' || c == '\U{205F}'
    || c == '\U{3000}' || c == '\U{FEFF}'
  }

  /** The character class [^\s@]. */
  predicate IsWordChar(c: char) {
    !IsSpace(c) && c != '@'
  }

  predicate AllWord(s: string) {
    forall i :: 0 <= i < |s| ==> IsWordChar(s[i])
  }

  /** The pattern: a non-empty run of [^\s@], an '@', a non-empty run, a '.',
      a non-empty run, and nothing else. */
  predicate MatchesPattern(s: string) {
    exists at, dot | 0 < at < |s| && at + 1 < dot < |s| - 1 :: MatchAt(s, at, dot)
  }

  /** The pattern matches `s` with its '@' at `at` and its '.' at `dot`. */
  predicate MatchAt(s: string, at: nat, dot: nat)
    requires at < dot < |s|
  {
    && s[at] == '@' && s[dot] == '.'
    && AllWord(s[..at]) && AllWord(s[at + 1..dot]) && AllWord(s[dot + 1..])
  }

  /** JavaScript's `length`: code points above U+FFFF take two UTF-16 units. */
  function Utf16Length(s: string): (n: nat)
    ensures |s| <= n <= 2 * |s|
    ensures (forall i :: 0 <= i < |s| ==> s[i] as int <= 0xFFFF) ==> n == |s|
  {
    if s == [] then 0
    else (if s[0] as int > 0xFFFF then 2 else 1) + Utf16Length(s[1..])
  }

  /** The check of route.ts line 16. */
  predicate IsValidEmail(s: string) {
    MatchesPattern(s) && Utf16Length(s) <= MaxLength
  }

  // ---------------------------------------------------------------------------
  // The split-based reading

  function Count(s: string, x: char): (n: nat)
    ensures n <= |s|
    ensures n == 0 <==> forall i :: 0 <= i < |s| ==> s[i] != x
  {
    if s == [] then 0 else (if s[0] == x then 1 else 0) + Count(s[1..], x)
  }

  /** Index of the first `x` in `s`, or `|s|` when there is none. */
  function IndexOf(s: string, x: char): (k: nat)
    ensures k <= |s|
    ensures k < |s| ==> s[k] == x
    ensures forall i :: 0 <= i < k ==> s[i] != x
  {
    if s == [] then 0
    else if s[0] == x then 0
    else 1 + IndexOf(s[1..], x)
  }

  predicate NoSpace(s: string) {
    forall i :: 0 <= i < |s| ==> !IsSpace(s[i])
  }

  /** `d` has a '.' with at least one character on each side. */
  predicate HasInteriorDot(d: string) {
    exists k | 0 < k < |d| - 1 :: d[k] == '.'
  }

  predicate SplitShape(s: string) {
    && NoSpace(s)
    && Count(s, '@') == 1
    && var at := IndexOf(s, '@');
       0 < at < |s| && HasInteriorDot(s[at + 1..])
  }

  lemma {:induction false} CountAppend(a: string, b: string, x: char)
    ensures Count(a + b, x) == Count(a, x) + Count(b, x)
  {
    if a == [] {
      assert a + b == b;
    } else {
      assert (a + b)[1..] == a[1..] + b;
      CountAppend(a[1..], b, x);
    }
  }

  /** Count splits around a chosen position. */
  lemma CountAround(s: string, k: nat, x: char)
    requires k < |s|
    ensures Count(s, x) == Count(s[..k], x) + (if s[k] == x then 1 else 0) + Count(s[k + 1..], x)
  {
    assert s == s[..k] + ([s[k]] + s[k + 1..]);
    CountAppend(s[..k], [s[k]] + s[k + 1..], x);
    CountAppend([s[k]], s[k + 1..], x);
  }

  /** The five pieces of a string cut at two positions. */
  lemma CutTwice(s: string, at: nat, dot: nat)
    requires at < dot < |s|
    ensures s == s[..at] + [s[at]] + s[at + 1..dot] + [s[dot]] + s[dot + 1..]
  {
    assert s[at..] == [s[at]] + s[at + 1..];
    assert s[at + 1..] == s[at + 1..dot] + s[dot..];
    assert s[dot..] == [s[dot]] + s[dot + 1..];
    assert s == s[..at] + s[at..];
  }

  /** Outside its '@', a match holds neither whitespace nor another '@'. */
  lemma MatchChars(s: string, at: nat, dot: nat)
    requires at < dot < |s| && MatchAt(s, at, dot)
    ensures forall i :: 0 <= i < |s| ==> !IsSpace(s[i]) && (i != at ==> s[i] != '@')
  {
    forall i | 0 <= i < |s| ensures !IsSpace(s[i]) && (i != at ==> s[i] != '@') {
      if i < at {
        assert s[i] == s[..at][i];
      } else if at < i < dot {
        assert s[i] == s[at + 1..dot][i - at - 1];
      } else if dot < i {
        assert s[i] == s[dot + 1..][i - dot - 1];
      }
    }
  }

  lemma PatternImpliesSplit(s: string)
    requires MatchesPattern(s)
    ensures SplitShape(s)
  {
    var at, dot :| 0 < at < |s| && at + 1 < dot < |s| - 1 && MatchAt(s, at, dot);
    MatchChars(s, at, dot);
    assert Count(s[..at], '@') == 0;
    var rest := s[at + 1..];
    assert forall i :: 0 <= i < |rest| ==> rest[i] == s[at + 1 + i];
    assert Count(rest, '@') == 0;
    CountAround(s, at, '@');
    assert rest[dot - at - 1] == '.';
  }

  lemma SplitImpliesPattern(s: string)
    requires SplitShape(s)
    ensures MatchesPattern(s)
  {
    var at := IndexOf(s, '@');
    var d := s[at + 1..];
    var k :| 0 < k < |d| - 1 && d[k] == '.';
    var dot := at + 1 + k;
    CountAround(s, at, '@');
    assert Count(d, '@') == 0;
    assert forall i :: at < i < |s| ==> s[i] == d[i - at - 1];
    assert AllWord(s[..at]);
    assert AllWord(s[at + 1..dot]);
    assert AllWord(s[dot + 1..]);
    assert MatchAt(s, at, dot);
  }

  /** The pattern accepts exactly the strings with no whitespace, exactly one
      '@' that is not first, and a '.' strictly inside the text after it. */
  lemma PatternIffSplit(s: string)
    ensures MatchesPattern(s) <==> SplitShape(s)
  {
    if MatchesPattern(s) { PatternImpliesSplit(s); }
    if SplitShape(s) { SplitImpliesPattern(s); }
  }

  /** The full check, stated as the four conditions of the split reading. */
  lemma ValidEmailIff(s: string)
    ensures IsValidEmail(s) <==>
      && NoSpace(s)
      && Count(s, '@') == 1
      && 0 < IndexOf(s, '@')
      && HasInteriorDot(s[IndexOf(s, '@') + 1..])
      && Utf16Length(s) <= MaxLength
  {
    PatternIffSplit(s);
  }

  /** The pattern matches local '@' domain '.' tld for any non-empty runs. */
  lemma PatternOfParts(a: string, b: string, c: string)
    requires |a| > 0 && |b| > 0 && |c| > 0
    requires AllWord(a) && AllWord(b) && AllWord(c)
    ensures MatchesPattern(a + ['@'] + b + ['.'] + c)
  {
    var s := a + ['@'] + b + ['.'] + c;
    var at, dot := |a|, |a| + 1 + |b|;
    assert s[..at] == a;
    assert s[at + 1..dot] == b;
    assert s[dot + 1..] == c;
    assert s[at] == '@' && s[dot] == '.';
    assert MatchAt(s, at, dot);
  }

  /** Every match decomposes into the three runs of the pattern. */
  lemma PartsOfPattern(s: string) returns (a: string, b: string, c: string)
    requires MatchesPattern(s)
    ensures |a| > 0 && |b| > 0 && |c| > 0
    ensures AllWord(a) && AllWord(b) && AllWord(c)
    ensures s == a + ['@'] + b + ['.'] + c
  {
    var at, dot :| 0 < at < |s| && at + 1 < dot < |s| - 1 && MatchAt(s, at, dot);
    a, b, c := s[..at], s[at + 1..dot], s[dot + 1..];
    CutTwice(s, at, dot);
  }

  /** Anything longer than 254 characters is rejected, whatever its shape. */
  lemma TooLongRejected(s: string)
    requires |s| > MaxLength
    ensures !IsValidEmail(s)
  {
  }

  /** A well-shaped address of exactly 254 characters, none of them beyond
      U+FFFF, is accepted. */
  lemma BoundaryAccepted(a: string, b: string, c: string)
    requires |a| > 0 && |b| > 0 && |c| > 0
    requires AllWord(a) && AllWord(b) && AllWord(c)
    requires forall i :: 0 <= i < |a| ==> a[i] as int <= 0xFFFF
    requires forall i :: 0 <= i < |b| ==> b[i] as int <= 0xFFFF
    requires forall i :: 0 <= i < |c| ==> c[i] as int <= 0xFFFF
    requires |a| + |b| + |c| + 2 == MaxLength
    ensures IsValidEmail(a + ['@'] + b + ['.'] + c)
  {
    var s := a + ['@'] + b + ['.'] + c;
    PatternOfParts(a, b, c);
    forall i | 0 <= i < |s| ensures s[i] as int <= 0xFFFF {
      if i < |a| {
        assert s[i] == a[i];
      } else if |a| < i < |a| + 1 + |b| {
        assert s[i] == b[i - |a| - 1];
      } else if |a| + 1 + |b| < i {
        assert s[i] == c[i - |a| - |b| - 2];
      }
    }
  }

  /** One concrete address of 254 characters, 247 'a's then "@ex.com", is
      accepted; one more character makes it too long. */
  lemma Sample254Accepted()
    ensures |seq(247, _ => 'a') + "@ex.com"| == MaxLength
    ensures IsValidEmail(seq(247, _ => 'a') + "@ex.com")
    ensures !IsValidEmail(seq(247, _ => 'a') + "@ex.com" + "m")
  {
    var a := seq(247, _ => 'a');
    assert a + "@ex.com" == a + ['@'] + "ex" + ['.'] + "com";
    BoundaryAccepted(a, "ex", "com");
  }
}
