/** The Python string operations the modelled code uses: stripping,
    splitting on whitespace, joining, prefix and substring tests,
    replacement, ASCII lower-casing and decimal formatting. */
module Text {

  /** Python's str.isspace on one character, for the ASCII and Latin-1
      whitespace characters: space, \t \n \v \f \r, the separators
      \x1c-\x1f, \x85 and \xa0. */
  predicate IsSpace(c: char) {
    c == ' ' || ('\t' <= c <= '\r') || ('\U{1C}' <= c <= '\U{1F}') || c == '\U{85}' || c == '\U{A0}'
  }

  /** s.lstrip(): drop the leading whitespace. */
  function LStrip(s: string): (r: string)
    ensures |r| <= |s| && r == s[|s| - |r|..]
    ensures forall i :: 0 <= i < |s| - |r| ==> IsSpace(s[i])
    ensures r != [] ==> !IsSpace(r[0])
  {
    if |s| > 0 && IsSpace(s[0]) then LStrip(s[1..]) else s
  }

  /** s.rstrip(): drop the trailing whitespace. */
  function RStrip(s: string): (r: string)
    ensures |r| <= |s| && r == s[..|r|]
    ensures forall i :: |r| <= i < |s| ==> IsSpace(s[i])
    ensures r != [] ==> !IsSpace(r[|r| - 1])
  {
    if |s| > 0 && IsSpace(s[|s| - 1]) then RStrip(s[..|s| - 1]) else s
  }

  /** s.strip(): drop the whitespace at both ends. */
  function Strip(s: string): (r: string)
    ensures |r| <= |s|
    ensures r != [] ==> !IsSpace(r[0]) && !IsSpace(r[|r| - 1])
  {
    RStrip(LStrip(s))
  }

  /** Stripping gives the empty string exactly for all-whitespace strings. */
  lemma StripEmpty(s: string)
    ensures Strip(s) == [] <==> forall k :: 0 <= k < |s| ==> IsSpace(s[k])
  {
    if Strip(s) == [] {
      assert LStrip(s) == [];
    }
  }

  /** Stripping twice is stripping once. */
  lemma StripIdempotent(s: string)
    ensures Strip(Strip(s)) == Strip(s)
  {
    var r := Strip(s);
    assert LStrip(r) == r;
    assert RStrip(r) == r;
  }

  /** s.strip(chars): drop the characters of chars at both ends. */
  function StripChars(s: string, chars: string): string {
    RStripChars(LStripChars(s, chars), chars)
  }

  function LStripChars(s: string, chars: string): string
    decreases |s|
  {
    if |s| > 0 && s[0] in chars then LStripChars(s[1..], chars) else s
  }

  function RStripChars(s: string, chars: string): string
    decreases |s|
  {
    if |s| > 0 && s[|s| - 1] in chars then RStripChars(s[..|s| - 1], chars) else s
  }

  /** lstrip removes exactly the longest prefix made of characters of chars. */
  lemma {:induction false} LStripCharsSpec(s: string, chars: string)
    decreases |s|
    ensures |LStripChars(s, chars)| <= |s|
    ensures LStripChars(s, chars) == s[|s| - |LStripChars(s, chars)|..]
    ensures forall i :: 0 <= i < |s| - |LStripChars(s, chars)| ==> s[i] in chars
    ensures LStripChars(s, chars) != [] ==> LStripChars(s, chars)[0] !in chars
  {
    if |s| > 0 && s[0] in chars {
      LStripCharsSpec(s[1..], chars);
    }
  }

  /** rstrip removes exactly the longest suffix made of characters of chars. */
  lemma {:induction false} RStripCharsSpec(s: string, chars: string)
    decreases |s|
    ensures |RStripChars(s, chars)| <= |s|
    ensures RStripChars(s, chars) == s[..|RStripChars(s, chars)|]
    ensures forall i :: |RStripChars(s, chars)| <= i < |s| ==> s[i] in chars
    ensures RStripChars(s, chars) != [] ==> RStripChars(s, chars)[|RStripChars(s, chars)| - 1] !in chars
  {
    if |s| > 0 && s[|s| - 1] in chars {
      RStripCharsSpec(s[..|s| - 1], chars);
    }
  }

  /** A string that neither starts nor ends with a character of chars is
      left as it is. */
  lemma StripCharsNothing(s: string, chars: string)
    requires s != [] && s[0] !in chars && s[|s| - 1] !in chars
    ensures StripChars(s, chars) == s
  {
  }

  /** The longest prefix of s without whitespace. */
  function TakeWord(s: string): (w: string)
    ensures |w| <= |s| && w == s[..|w|]
    ensures forall i :: 0 <= i < |w| ==> !IsSpace(w[i])
    ensures |w| < |s| ==> IsSpace(s[|w|])
  {
    if |s| == 0 || IsSpace(s[0]) then [] else [s[0]] + TakeWord(s[1..])
  }

  /** A token of s.split(): non-empty, without whitespace. */
  predicate IsWord(w: string) {
    w != [] && forall i :: 0 <= i < |w| ==> !IsSpace(w[i])
  }

  /** s.split(): the maximal runs of non-whitespace characters, in order. */
  function Split(s: string): (r: seq<string>)
    decreases |s|
    ensures forall k :: 0 <= k < |r| ==> IsWord(r[k])
  {
    var t := LStrip(s);
    if t == [] then []
    else
      var w := TakeWord(t);
      assert |w| > 0;
      assert IsWord(w);
      var rest := Split(t[|w|..]);
      [w] + rest
  }

  /** A string of whitespace alone splits into nothing. */
  lemma SplitBlank(s: string)
    requires forall k :: 0 <= k < |s| ==> IsSpace(s[k])
    ensures Split(s) == []
  {
    assert LStrip(s) == [];
  }

  /** sep.join(xs). */
  function Join(sep: string, xs: seq<string>): string {
    if |xs| == 0 then "" else if |xs| == 1 then xs[0] else Join(sep, xs[..|xs| - 1]) + sep + xs[|xs| - 1]
  }

  lemma JoinSnoc(sep: string, xs: seq<string>, x: string)
    requires |xs| > 0
    ensures Join(sep, xs + [x]) == Join(sep, xs) + sep + x
  {
    assert (xs + [x])[..|xs|] == xs;
  }

  lemma JoinNonEmpty(sep: string, xs: seq<string>)
    requires |xs| > 0 && xs[|xs| - 1] != ""
    ensures Join(sep, xs) != ""
  {
  }

  /** s.startswith(p). */
  predicate StartsWith(s: string, p: string) {
    |p| <= |s| && s[..|p|] == p
  }

  /** w in s, for strings: w occurs in s as a substring. */
  predicate Contains(s: string, w: string)
    decreases |s|
  {
    StartsWith(s, w) || (|s| > 0 && Contains(s[1..], w))
  }

  /** s.replace(pat, rep): every non-overlapping occurrence of pat, from the
      left, replaced by rep. */
  function Replace(s: string, pat: string, rep: string): string
    requires pat != []
    decreases |s|
  {
    if |s| == 0 then []
    else if StartsWith(s, pat) then rep + Replace(s[|pat|..], pat, rep)
    else [s[0]] + Replace(s[1..], pat, rep)
  }

  /** A text lacking a character of p does not start with p. */
  lemma NotStartsWith(s: string, p: string, c: char)
    requires c in p && c !in s
    ensures !StartsWith(s, p)
  {
    var i :| 0 <= i < |p| && p[i] == c;
    if |p| <= |s| {
      assert s[..|p|][i] == s[i];
    }
  }

  /** A pattern with a character that does not occur cannot match. */
  lemma {:induction false} ReplaceAbsent(s: string, pat: string, rep: string, c: char)
    requires pat != [] && c in pat && c !in s
    decreases |s|
    ensures Replace(s, pat, rep) == s
  {
    if |s| > 0 {
      NotStartsWith(s, pat, c);
      assert c !in s[1..];
      ReplaceAbsent(s[1..], pat, rep, c);
    }
  }

  /** Replacing by a text without c brings in no c. */
  lemma {:induction false} ReplaceKeeps(s: string, pat: string, rep: string, c: char)
    requires pat != [] && c !in s && c !in rep
    decreases |s|
    ensures c !in Replace(s, pat, rep)
  {
    if |s| > 0 {
      if StartsWith(s, pat) {
        assert c !in s[|pat|..];
        ReplaceKeeps(s[|pat|..], pat, rep, c);
      } else {
        assert c !in s[1..];
        ReplaceKeeps(s[1..], pat, rep, c);
      }
    }
  }

  /** Replacing a one-character pattern by a text without that character
      leaves none of it. */
  lemma {:induction false} ReplaceRemoves(s: string, c: char, rep: string)
    requires c !in rep
    decreases |s|
    ensures c !in Replace(s, [c], rep)
  {
    if |s| > 0 {
      if StartsWith(s, [c]) {
        ReplaceRemoves(s[|[c]|..], c, rep);
      } else {
        assert s[0] != c by {
          assert s[..1] == [s[0]];
        }
        ReplaceRemoves(s[1..], c, rep);
      }
    }
  }

  /** The index of the first c in s, or |s| when there is none. */
  function IndexOf(s: string, c: char): (i: nat)
    ensures i <= |s| && c !in s[..i]
    ensures i < |s| ==> s[i] == c
  {
    if |s| == 0 || s[0] == c then 0 else 1 + IndexOf(s[1..], c)
  }

  /** s.split(c)[0]: the text before the first c. */
  function Before(s: string, c: char): (r: string)
    ensures |r| <= |s| && r == s[..|r|] && c !in r
    ensures |r| < |s| ==> s[|r|] == c
  {
    s[..IndexOf(s, c)]
  }

  predicate IsUpper(c: char) {
    'A' <= c <= 'Z'
  }

  predicate IsLower(c: char) {
    'a' <= c <= 'z'
  }

  function LowerChar(c: char): (d: char)
    ensures !IsUpper(d)
    ensures IsUpper(c) ==> IsLower(d)
    ensures !IsUpper(c) ==> d == c
  {
    if IsUpper(c) then (c as int - 'A' as int + 'a' as int) as char else c
  }

  /** s.lower(), for the ASCII letters. */
  function Lower(s: string): (r: string)
    ensures |r| == |s|
    ensures forall i :: 0 <= i < |s| ==> r[i] == LowerChar(s[i])
  {
    seq(|s|, i requires 0 <= i < |s| => LowerChar(s[i]))
  }

  /** A lower-cased string has no upper-case letter, so lower-casing it
      again changes nothing. */
  lemma LowerIdempotent(s: string)
    ensures forall i :: 0 <= i < |s| ==> !IsUpper(Lower(s)[i])
    ensures Lower(Lower(s)) == Lower(s)
  {
  }

  /** str(n). */
  function NatToString(n: nat): (r: string)
    ensures |r| > 0 && forall i :: 0 <= i < |r| ==> '0' <= r[i] <= '9'
  {
    var d := ['0' + (n % 10) as char];
    if n < 10 then d else NatToString(n / 10) + d
  }
}
