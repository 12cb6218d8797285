/** `sanitize_filename`: one regular-expression deletion followed by a
    space-to-underscore replacement. */
module Sanitize {

  // The nine characters of the regular-expression class in `sanitize_filename`:
  // backslash, slash, star, question mark, colon, double quote, less, greater, bar.
  predicate IsForbidden(c: char) {
    c == '\\' || c == '/' || c == '*' || c == '?' || c == ':'
    || c == '"' || c == '<' || c == '>' || c == '|'
  }

  /** A name that sanitising leaves alone: no forbidden character and no space. */
  predicate IsClean(s: string) {
    forall i :: 0 <= i < |s| ==> !IsForbidden(s[i]) && s[i] != ' '
  }

  function CountForbidden(s: string): (n: nat)
    ensures n <= |s|
  {
    if s == [] then 0 else (if IsForbidden(s[0]) then 1 else 0) + CountForbidden(s[1..])
  }

  /** The regular-expression substitution: every forbidden character deleted. */
  function StripForbidden(s: string): (r: string)
    ensures forall i :: 0 <= i < |r| ==> !IsForbidden(r[i])
    ensures |r| == |s| - CountForbidden(s)
  {
    if s == [] then []
    else if IsForbidden(s[0]) then StripForbidden(s[1..])
    else [s[0]] + StripForbidden(s[1..])
  }

  /** The string replacement: each space becomes an underscore. */
  function SpacesToUnderscores(s: string): (r: string)
    ensures |r| == |s|
    ensures forall i :: 0 <= i < |s| ==> r[i] == if s[i] == ' ' then '_' else s[i]
  {
    if s == [] then [] else [if s[0] == ' ' then '_' else s[0]] + SpacesToUnderscores(s[1..])
  }

  /** `sanitize_filename`: deletion first, then the replacement. */
  function SanitizeFilename(s: string): (r: string)
    ensures IsClean(r)
    ensures |r| == |s| - CountForbidden(s)
  {
    SpacesToUnderscores(StripForbidden(s))
  }

  /** Reference definition, one character at a time: what each input character becomes. */
  function CharImage(c: char): string {
    if IsForbidden(c) then [] else if c == ' ' then ['_'] else [c]
  }

  function SanitizeCharwise(s: string): string {
    if s == [] then [] else CharImage(s[0]) + SanitizeCharwise(s[1..])
  }

  lemma SpacesToUnderscoresAppend(a: string, b: string)
    ensures SpacesToUnderscores(a + b) == SpacesToUnderscores(a) + SpacesToUnderscores(b)
  {
    var l, r := SpacesToUnderscores(a + b), SpacesToUnderscores(a) + SpacesToUnderscores(b);
    assert |l| == |r|;
    forall i | 0 <= i < |l| ensures l[i] == r[i] {
      if i < |a| {
        assert (a + b)[i] == a[i];
      } else {
        assert (a + b)[i] == b[i - |a|];
      }
    }
  }

  /** The sanitiser deletes each forbidden character, turns each space into `_`
      and keeps every other character, in order. */
  lemma {:induction false} SanitizeIsCharwise(s: string)
    ensures SanitizeFilename(s) == SanitizeCharwise(s)
  {
    if s != [] {
      SanitizeIsCharwise(s[1..]);
      var c := s[0];
      var rest := StripForbidden(s[1..]);
      if !IsForbidden(c) {
        SpacesToUnderscoresAppend([c], rest);
      }
    }
  }

  lemma {:induction false} SanitizeCharwiseAppend(a: string, b: string)
    ensures SanitizeCharwise(a + b) == SanitizeCharwise(a) + SanitizeCharwise(b)
  {
    if a != [] {
      assert (a + b)[0] == a[0];
      assert (a + b)[1..] == a[1..] + b;
      SanitizeCharwiseAppend(a[1..], b);
    } else {
      assert a + b == b;
    }
  }

  /** Sanitising a concatenation sanitises each part: the result never depends on
      characters outside a position's own. */
  lemma SanitizeAppend(a: string, b: string)
    ensures SanitizeFilename(a + b) == SanitizeFilename(a) + SanitizeFilename(b)
  {
    SanitizeIsCharwise(a + b);
    SanitizeIsCharwise(a);
    SanitizeIsCharwise(b);
    SanitizeCharwiseAppend(a, b);
  }

  lemma {:induction false} CleanIsFixpoint(s: string)
    requires IsClean(s)
    ensures SanitizeFilename(s) == s
  {
    SanitizeIsCharwise(s);
    CharwiseOfClean(s);
  }

  lemma {:induction false} CharwiseOfClean(s: string)
    requires IsClean(s)
    ensures SanitizeCharwise(s) == s
  {
    if s != [] {
      assert IsClean(s[1..]) by {
        forall i | 0 <= i < |s[1..]| ensures !IsForbidden(s[1..][i]) && s[1..][i] != ' ' {
          assert s[1..][i] == s[i + 1];
        }
      }
      CharwiseOfClean(s[1..]);
    }
  }

  /** The names the sanitiser leaves unchanged are exactly the clean ones. */
  lemma SanitizeFixpoints(s: string)
    ensures SanitizeFilename(s) == s <==> IsClean(s)
  {
    if IsClean(s) {
      CleanIsFixpoint(s);
    }
  }

  /** Sanitising twice is sanitising once. */
  lemma SanitizeIdempotent(s: string)
    ensures SanitizeFilename(SanitizeFilename(s)) == SanitizeFilename(s)
  {
    CleanIsFixpoint(SanitizeFilename(s));
  }

  lemma SanitizeEmpty()
    ensures SanitizeFilename("") == ""
  {
  }

  /** No character is lost or invented apart from the deletions and the
      space-to-underscore mapping: every other character occurs as often in the
      output as in the input, and `_` occurs once for each `_` or space of the input. */
  lemma {:induction false} SanitizeCounts(s: string, c: char)
    ensures !IsForbidden(c) && c != ' ' && c != '_' ==>
              multiset(SanitizeFilename(s))[c] == multiset(s)[c]
    ensures multiset(SanitizeFilename(s))['_'] == multiset(s)['_'] + multiset(s)[' ']
    ensures multiset(SanitizeFilename(s))[' '] == 0
  {
    SanitizeIsCharwise(s);
    CharwiseCounts(s, c);
    CharwiseCounts(s, '_');
    CharwiseCounts(s, ' ');
  }

  /** How often `c` occurs in the sanitised form of `s`. */
  function ImageCount(s: string, c: char): nat {
    if IsForbidden(c) || c == ' ' then 0
    else if c == '_' then multiset(s)['_'] + multiset(s)[' ']
    else multiset(s)[c]
  }

  lemma {:induction false} CharwiseCounts(s: string, c: char)
    ensures multiset(SanitizeCharwise(s))[c] == ImageCount(s, c)
  {
    if s != [] {
      var x, t := s[0], s[1..];
      CharwiseCounts(t, c);
      assert s == [x] + t;
      ImageCountAppend([x], t, c);
      CharImageCount(x, c);
      assert multiset(SanitizeCharwise(s)) == multiset(CharImage(x)) + multiset(SanitizeCharwise(t));
    }
  }

  lemma ImageCountAppend(a: string, b: string, c: char)
    ensures ImageCount(a + b, c) == ImageCount(a, c) + ImageCount(b, c)
  {
    assert multiset(a + b) == multiset(a) + multiset(b);
  }

  lemma CharImageCount(x: char, c: char)
    ensures multiset(CharImage(x))[c] == ImageCount([x], c)
  {
  }
}
