/**
 * Parsing of a project card's `data-tags` attribute (`getTags` in project/project.js):
 * the attribute, or "" when it is missing, is lower-cased, split on runs of whitespace
 * and stripped of empty fields.
 */
module Tags {
  import opened Wrappers

  /** The characters matched by `\s` in an ECMAScript regular expression
      (WhiteSpace and LineTerminator code points). */
  predicate IsSpace(c: char)
  {
    var n := c as int;
    n == 0x09 || n == 0x0A || n == 0x0B || n == 0x0C || n == 0x0D || n == 0x20
    || n == 0xA0 || n == 0x1680 || (0x2000 <= n <= 0x200A)
    || n == 0x2028 || n == 0x2029 || n == 0x202F || n == 0x205F
    || n == 0x3000 || n == 0xFEFF
  }

  predicate IsUpper(c: char)
  {
    'A' <= c <= 'Z'
  }

  predicate NoSpace(s: string)
  {
    forall i :: 0 <= i < |s| ==> !IsSpace(s[i])
  }

  /** Every character of `s` is whitespace (so "" is blank). */
  predicate Blank(s: string)
  {
    forall i :: 0 <= i < |s| ==> IsSpace(s[i])
  }

  predicate NoUpper(s: string)
  {
    forall i :: 0 <= i < |s| ==> !IsUpper(s[i])
  }

  /** The small letters, in alphabetical order. */
  const SMALL: string := "abcdefghijklmnopqrstuvwxyz"

  /** Lower-casing of one character, restricted to the ASCII letters: each capital
      becomes the small letter at the same place in the alphabet. */
  function LowerChar(c: char): (d: char)
    ensures IsUpper(c) ==> d == SMALL[c as int - 'A' as int]
    ensures !IsUpper(d)
    ensures IsSpace(d) <==> IsSpace(c)
    ensures !IsUpper(c) ==> d == c
  {
    if IsUpper(c) then (c as int + 32) as char else c
  }

  /** `String.prototype.toLowerCase`, restricted to the ASCII letters. */
  function Lower(s: string): (r: string)
    ensures |r| == |s|
    ensures NoUpper(r)
    ensures forall i :: 0 <= i < |s| ==> (IsSpace(r[i]) <==> IsSpace(s[i]))
    ensures forall i :: 0 <= i < |s| && IsUpper(s[i]) ==> r[i] == SMALL[s[i] as int - 'A' as int]
    ensures forall i :: 0 <= i < |s| && !IsUpper(s[i]) ==> r[i] == s[i]
    ensures NoUpper(s) ==> r == s
  {
    seq(|s|, i requires 0 <= i < |s| => LowerChar(s[i]))
  }

  /** Length of the run of non-whitespace characters that starts `s`. */
  function WordLen(s: string): (n: nat)
    ensures n <= |s|
    ensures forall i :: 0 <= i < n ==> !IsSpace(s[i])
    ensures n < |s| ==> IsSpace(s[n])
  {
    if s == [] || IsSpace(s[0]) then 0 else WordLen(s[1..]) + 1
  }

  /** The first field of `s` contains no whitespace. */
  lemma FirstWordNoSpace(s: string)
    ensures NoSpace(s[..WordLen(s)])
  {
    var n := WordLen(s);
    assert forall i :: 0 <= i < n ==> s[..n][i] == s[i];
  }

  /** Length of the run of whitespace characters that starts `s`. */
  function SpaceLen(s: string): (n: nat)
    ensures n <= |s|
    ensures n < |s| ==> !IsSpace(s[n])
    ensures s != [] && IsSpace(s[0]) ==> n >= 1
  {
    if s == [] || !IsSpace(s[0]) then 0 else SpaceLen(s[1..]) + 1
  }

  /**
   * `s.split(/\s+/)`: the fields between maximal runs of whitespace. A leading
   * (trailing) run yields an empty first (last) field, and "" yields [""].
   */
  function SplitWs(s: string): (r: seq<string>)
    ensures |r| >= 1
    ensures forall i :: 0 <= i < |r| ==> NoSpace(r[i])
    decreases |s|
  {
    var n := WordLen(s);
    FirstWordNoSpace(s);
    if n == |s| then
      assert s[..n] == s;
      [s]
    else
      var rest := s[n..];
      [s[..n]] + SplitWs(rest[SpaceLen(rest)..])
  }

  /** Text without whitespace is a single field. */
  lemma SplitWsOfWord(s: string)
    requires NoSpace(s)
    ensures SplitWs(s) == [s]
  {
    assert WordLen(s) == |s|;
  }

  predicate AllNoUpper(xs: seq<string>)
  {
    forall i :: 0 <= i < |xs| ==> NoUpper(xs[i])
  }

  lemma {:induction false} NoUpperSlice(s: string, lo: nat, hi: nat)
    requires lo <= hi <= |s| && NoUpper(s)
    ensures NoUpper(s[lo..hi])
  {
    assert forall i :: 0 <= i < hi - lo ==> s[lo..hi][i] == s[lo + i];
  }

  lemma {:induction false} AllNoUpperCons(x: string, xs: seq<string>)
    requires NoUpper(x) && AllNoUpper(xs)
    ensures AllNoUpper([x] + xs)
  {
    var r := [x] + xs;
    assert forall i :: 1 <= i < |r| ==> r[i] == xs[i - 1];
  }

  /** Splitting text without upper-case letters gives fields without them. */
  lemma {:induction false} SplitWsNoUpper(s: string)
    requires NoUpper(s)
    ensures AllNoUpper(SplitWs(s))
    decreases |s|
  {
    var n := WordLen(s);
    if n < |s| {
      var rest := s[n..];
      var k := SpaceLen(rest);
      var tail := rest[k..];
      assert tail == s[n + k..];
      NoUpperSlice(s, n + k, |s|);
      NoUpperSlice(s, 0, n);
      SplitWsNoUpper(tail);
      SplitWsStep(s);
      AllNoUpperCons(s[..n], SplitWs(tail));
    } else {
      assert s[..n] == s;
      assert SplitWs(s) == [s];
    }
  }

  /** `xs.filter(Boolean)` on strings: drops the empty ones, keeps the others in order. */
  function NonEmpty(xs: seq<string>): (r: seq<string>)
    ensures |r| <= |xs|
    ensures forall i :: 0 <= i < |r| ==> r[i] != [] && r[i] in xs
    ensures (forall i :: 0 <= i < |xs| ==> xs[i] != []) ==> r == xs
  {
    if xs == [] then []
    else if xs[0] == [] then NonEmpty(xs[1..])
    else [xs[0]] + NonEmpty(xs[1..])
  }

  /** `getTags(card)` on the card's `data-tags` attribute. */
  function GetTags(attr: Option<string>): (r: seq<string>)
    ensures forall i :: 0 <= i < |r| ==> r[i] != [] && NoSpace(r[i]) && NoUpper(r[i])
  {
    var low := Lower(attr.GetOr(""));
    SplitWsNoUpper(low);
    Tokens(low)
  }

  /** The non-empty fields of `s.split(/\s+/)`. */
  function Tokens(s: string): seq<string>
  {
    NonEmpty(SplitWs(s))
  }

  /** The characters of `s` that are not whitespace, in order. */
  function DropSpaces(s: string): (r: string)
  {
    if s == [] then [] else (if IsSpace(s[0]) then [] else [s[0]]) + DropSpaces(s[1..])
  }

  function Concat(xs: seq<string>): string
  {
    if xs == [] then [] else xs[0] + Concat(xs[1..])
  }

  /** Words joined by single spaces, as an author writes `data-tags="web ui"`. */
  function Join(ws: seq<string>): string
  {
    if ws == [] then []
    else if |ws| == 1 then ws[0]
    else ws[0] + " " + Join(ws[1..])
  }

  lemma {:induction false} DropSpacesAppend(a: string, b: string)
    ensures DropSpaces(a + b) == DropSpaces(a) + DropSpaces(b)
    decreases |a|
  {
    if a == [] {
      assert a + b == b;
    } else {
      assert (a + b)[1..] == a[1..] + b;
      DropSpacesAppend(a[1..], b);
    }
  }

  lemma {:induction false} DropSpacesOfWord(w: string)
    requires NoSpace(w)
    ensures DropSpaces(w) == w
    decreases |w|
  {
    if w != [] {
      assert NoSpace(w[1..]) by { assert forall i :: 0 <= i < |w[1..]| ==> w[1..][i] == w[i + 1]; }
      DropSpacesOfWord(w[1..]);
      assert w == [w[0]] + w[1..];
    }
  }

  lemma {:induction false} DropSpacesOfBlank(w: string)
    requires Blank(w)
    ensures DropSpaces(w) == []
    decreases |w|
  {
    if w != [] {
      DropSpacesOfBlank(w[1..]);
    }
  }

  /** One step of the split: the first field, then the split of what follows its whitespace run. */
  lemma {:induction false} SplitWsStep(s: string)
    requires WordLen(s) < |s|
    ensures SplitWs(s) == [s[..WordLen(s)]] + SplitWs(s[WordLen(s)..][SpaceLen(s[WordLen(s)..])..])
  {
  }

  lemma {:induction false} DropSpacesOfParts(w: string, gap: string, rest: string)
    requires NoSpace(w) && Blank(gap)
    ensures DropSpaces(w + gap + rest) == w + DropSpaces(rest)
  {
    DropSpacesAppend(w + gap, rest);
    DropSpacesAppend(w, gap);
    DropSpacesOfWord(w);
    DropSpacesOfBlank(gap);
    assert DropSpaces(w + gap) == w;
  }

  /** The whitespace-free characters of a string: its first field, then those after the
      whitespace run that ends the field. */
  lemma {:induction false} DropSpacesStep(s: string)
    requires WordLen(s) < |s|
    ensures DropSpaces(s) == s[..WordLen(s)] + DropSpaces(s[WordLen(s)..][SpaceLen(s[WordLen(s)..])..])
  {
    var n := WordLen(s);
    var rest := s[n..];
    var k := SpaceLen(rest);
    var w, gap, tail := s[..n], rest[..k], rest[k..];
    SpaceRun(rest);
    assert Blank(gap);
    assert s == w + gap + tail;
    DropSpacesOfParts(w, gap, tail);
  }

  lemma {:induction false} ConcatSplitStep(s: string)
    requires WordLen(s) < |s|
    ensures Concat(SplitWs(s)) == s[..WordLen(s)] + Concat(SplitWs(s[WordLen(s)..][SpaceLen(s[WordLen(s)..])..]))
  {
    var n := WordLen(s);
    var rest := s[n..];
    var tail := SplitWs(rest[SpaceLen(rest)..]);
    SplitWsStep(s);
    ConcatCons(s[..n], tail);
  }

  /** The fields of a split, concatenated, are the string without its whitespace. */
  lemma {:induction false} SplitWsConcat(s: string)
    ensures Concat(SplitWs(s)) == DropSpaces(s)
    decreases |s|
  {
    var n := WordLen(s);
    if n == |s| {
      assert s[..n] == s;
      DropSpacesOfWord(s);
      assert Concat([s]) == s + Concat([]);
    } else {
      var rest := s[n..];
      var tail := rest[SpaceLen(rest)..];
      ConcatSplitStep(s);
      DropSpacesStep(s);
      SplitWsConcat(tail);
    }
  }

  lemma {:induction false} ConcatCons(x: string, xs: seq<string>)
    ensures Concat([x] + xs) == x + Concat(xs)
  {
    assert ([x] + xs)[1..] == xs;
  }

  lemma {:induction false} SpaceRun(s: string)
    ensures forall i :: 0 <= i < SpaceLen(s) ==> IsSpace(s[i])
    decreases |s|
  {
    if s != [] && IsSpace(s[0]) {
      SpaceRun(s[1..]);
    }
  }

  lemma {:induction false} NonEmptyConcat(xs: seq<string>)
    ensures Concat(NonEmpty(xs)) == Concat(xs)
  {
    if xs != [] {
      var rest := NonEmpty(xs[1..]);
      NonEmptyConcat(xs[1..]);
      if xs[0] == [] {
        assert NonEmpty(xs) == rest;
        assert Concat(xs) == [] + Concat(xs[1..]);
      } else {
        assert NonEmpty(xs) == [xs[0]] + rest;
        ConcatCons(xs[0], rest);
      }
    }
  }

  /**
   * The tags appear in attribute order and lose nothing but whitespace:
   * concatenated, they are the lower-cased attribute with its whitespace removed.
   */
  lemma {:induction false} TagsInAttributeOrder(attr: Option<string>)
    ensures Concat(GetTags(attr)) == DropSpaces(Lower(attr.GetOr("")))
  {
    var low := Lower(attr.GetOr(""));
    NonEmptyConcat(SplitWs(low));
    SplitWsConcat(low);
  }

  lemma {:induction false} ConcatEmptyIff(xs: seq<string>)
    requires forall i :: 0 <= i < |xs| ==> xs[i] != []
    ensures Concat(xs) == [] <==> xs == []
  {
    if xs != [] {
      assert |Concat(xs)| >= |xs[0]|;
    }
  }

  /** A missing attribute, or one made only of whitespace, yields no tags. */
  lemma {:induction false} BlankAttributeHasNoTags(attr: Option<string>)
    requires Blank(attr.GetOr(""))
    ensures GetTags(attr) == []
  {
    var low := Lower(attr.GetOr(""));
    DropSpacesOfBlank(low);
    TagsInAttributeOrder(attr);
    ConcatEmptyIff(GetTags(attr));
  }

  lemma {:induction false} WordLenOfWordThenSpace(w: string, t: string)
    requires NoSpace(w)
    requires t != [] && IsSpace(t[0])
    ensures WordLen(w + t) == |w|
    decreases |w|
  {
    if w == [] {
      assert w + t == t;
    } else {
      assert (w + t)[1..] == w[1..] + t;
      WordLenOfWordThenSpace(w[1..], t);
    }
  }

  lemma {:induction false} JoinShape(ws: seq<string>)
    requires forall i :: 0 <= i < |ws| ==> ws[i] != []
    ensures ws != [] ==> Join(ws) != [] && Join(ws)[0] == ws[0][0]
  {
  }

  lemma {:induction false} JoinNoUpper(ws: seq<string>)
    requires forall i :: 0 <= i < |ws| ==> NoUpper(ws[i])
    ensures NoUpper(Join(ws))
  {
    if |ws| > 1 {
      JoinNoUpper(ws[1..]);
      var j := ws[0] + " " + Join(ws[1..]);
      assert forall i :: 0 <= i < |j| ==> (i < |ws[0]| ==> j[i] == ws[0][i]) && (i > |ws[0]| ==> j[i] == Join(ws[1..])[i - |ws[0]| - 1]);
    }
  }

  /** Splitting words that were joined by single spaces gives the words back. */
  lemma {:induction false} SplitJoin(ws: seq<string>)
    requires ws != []
    requires forall i :: 0 <= i < |ws| ==> ws[i] != [] && NoSpace(ws[i])
    ensures SplitWs(Join(ws)) == ws
  {
    if |ws| == 1 {
      assert WordLen(ws[0]) == |ws[0]|;
    } else {
      var w, rest := ws[0], Join(ws[1..]);
      JoinShape(ws[1..]);
      SplitJoin(ws[1..]);
      assert Join(ws) == w + " " + rest;
      SplitWsGap(w, " ", rest);
    }
  }

  lemma {:induction false} SpaceLenOfBlank(g: string, rest: string)
    requires Blank(g)
    requires rest == [] || !IsSpace(rest[0])
    ensures SpaceLen(g + rest) == |g|
    decreases |g|
  {
    if g == [] {
      assert g + rest == rest;
    } else {
      assert (g + rest)[1..] == g[1..] + rest;
      SpaceLenOfBlank(g[1..], rest);
    }
  }

  /**
   * Where the split cuts: a whitespace-free field `w`, a non-empty run of whitespace,
   * and then text that is empty or starts with a non-whitespace character. The field
   * is cut off and the split goes on with that text. With `w` empty this is a leading
   * run of whitespace (an empty first field), and with `rest` empty a trailing one (an
   * empty last field).
   */
  lemma {:induction false} SplitWsGap(w: string, g: string, rest: string)
    requires NoSpace(w) && Blank(g) && g != []
    requires rest == [] || !IsSpace(rest[0])
    ensures SplitWs(w + g + rest) == [w] + SplitWs(rest)
  {
    var s := w + g + rest;
    var t := g + rest;
    assert s == w + t;
    WordLenOfWordThenSpace(w, t);
    assert s[..|w|] == w;
    assert s[|w|..] == t;
    SpaceLenOfBlank(g, rest);
    assert t[|g|..] == rest;
    SplitWsStep(s);
  }

  /**
   * Round trip: an attribute written as lower-case, whitespace-free, non-empty words
   * separated by single spaces parses back to exactly those words, in order.
   */
  lemma {:induction false} TagsOfJoinedWords(ws: seq<string>)
    requires forall i :: 0 <= i < |ws| ==> ws[i] != [] && NoSpace(ws[i]) && NoUpper(ws[i])
    ensures GetTags(Some(Join(ws))) == ws
  {
    JoinNoUpper(ws);
    if ws == [] {
      assert SplitWs([]) == [[]];
    } else {
      SplitJoin(ws);
    }
  }

  /** `filter(Boolean)` works element by element: on a concatenation it keeps the
      non-empty strings of the first part, then those of the second, in order. */
  lemma {:induction false} NonEmptyAppend(a: seq<string>, b: seq<string>)
    ensures NonEmpty(a + b) == NonEmpty(a) + NonEmpty(b)
    decreases |a|
  {
    if a == [] {
      assert a + b == b;
    } else {
      assert (a + b)[1..] == a[1..] + b;
      NonEmptyAppend(a[1..], b);
    }
  }

  /** Leading whitespace yields only an empty field, which is dropped. */
  lemma {:induction false} TokensSkipSpace(b: string)
    ensures Tokens(b) == Tokens(b[SpaceLen(b)..])
  {
    var k := SpaceLen(b);
    if k > 0 {
      var gap, tail := b[..k], b[k..];
      SpaceRun(b);
      assert Blank(gap) by {
        assert forall i :: 0 <= i < k ==> gap[i] == b[i];
      }
      assert b == [] + gap + tail;
      SplitWsGap([], gap, tail);
      assert ([[]] + SplitWs(tail))[1..] == SplitWs(tail);
    }
  }

  /** A whitespace-free field, whitespace, then anything. */
  lemma {:induction false} TokensWordGap(w: string, g: string, b: string)
    requires NoSpace(w) && Blank(g) && g != []
    ensures Tokens(w + g + b) == NonEmpty([w]) + Tokens(b)
  {
    var k := SpaceLen(b);
    var gap, tail := g + b[..k], b[k..];
    SpaceRun(b);
    assert Blank(gap) by {
      assert forall i :: |g| <= i < |gap| ==> gap[i] == b[i - |g|];
    }
    assert w + g + b == w + gap + tail;
    TokensFieldGap(w, gap, tail);
    TokensSkipSpace(b);
  }

  /** A field followed only by whitespace, then a gap, then anything. */
  lemma {:induction false} TokensTrailingGap(w: string, gap: string, g: string, b: string)
    requires NoSpace(w) && Blank(gap) && gap != [] && Blank(g) && g != []
    ensures Tokens(w + gap + g + b) == Tokens(w + gap) + Tokens(b)
  {
    assert w + gap == w + gap + [];
    SplitWsGap(w, gap, []);
    assert w + gap + g + b == w + (gap + g) + b;
    assert Blank(gap + g) by {
      assert forall i :: |gap| <= i < |gap + g| ==> (gap + g)[i] == g[i - |gap|];
    }
    TokensWordGap(w, gap + g, b);
    NonEmptyAppend([w], [[]]);
  }

  /** A field, whitespace and more text `c`, then a gap: the first field is split off on
      both sides, leaving `c` to the induction. */
  lemma {:induction false} TokensInnerGap(w: string, gap: string, c: string, g: string, b: string)
    requires NoSpace(w) && Blank(gap) && gap != []
    requires c != [] && !IsSpace(c[0])
    requires Tokens(c + g + b) == Tokens(c) + Tokens(b)
    ensures Tokens(w + gap + c + g + b) == Tokens(w + gap + c) + Tokens(b)
  {
    var x := c + g + b;
    assert x[0] == c[0];
    assert w + gap + c + g + b == w + gap + x;
    TokensFieldGap(w, gap, x);
    TokensFieldGap(w, gap, c);
    AppendAssoc(NonEmpty([w]), Tokens(c), Tokens(b));
  }

  /** The tokens of a field, whitespace, and text starting with a non-whitespace
      character (or empty): the field if it is non-empty, then the text's tokens. */
  lemma {:induction false} TokensFieldGap(w: string, gap: string, x: string)
    requires NoSpace(w) && Blank(gap) && gap != []
    requires x == [] || !IsSpace(x[0])
    ensures Tokens(w + gap + x) == NonEmpty([w]) + Tokens(x)
  {
    SplitWsGap(w, gap, x);
    NonEmptyAppend([w], SplitWs(x));
  }

  /** Associativity of concatenation, stated apart so that it is proved outside the
      large proof context of the token lemmas. */
  lemma AppendAssoc(a: seq<string>, b: seq<string>, c: seq<string>)
    ensures a + (b + c) == (a + b) + c
  {
  }

  /** A non-empty run of whitespace separates the tokens on its two sides. */
  lemma {:induction false} TokensGap(a: string, g: string, b: string)
    requires Blank(g) && g != []
    ensures Tokens(a + g + b) == Tokens(a) + Tokens(b)
    decreases |a|
  {
    if WordLen(a) == |a| {
      assert NoSpace(a);
      TokensWordGap(a, g, b);
    } else {
      var w, gap, c := FirstField(a);
      if c == [] {
        assert a == w + gap;
        TokensTrailingGap(w, gap, g, b);
      } else {
        TokensGap(c, g, b);
        TokensInnerGap(w, gap, c, g, b);
      }
    }
  }

  /** Text with whitespace in it: its first field, the whitespace run after it, and the
      rest, which is empty or starts with a non-whitespace character. */
  lemma {:induction false} FirstField(a: string) returns (w: string, gap: string, c: string)
    requires WordLen(a) < |a|
    ensures a == w + gap + c && |c| < |a|
    ensures NoSpace(w) && Blank(gap) && gap != []
    ensures c == [] || !IsSpace(c[0])
  {
    var n := WordLen(a);
    var rest := a[n..];
    var k := SpaceLen(rest);
    w, gap, c := a[..n], rest[..k], rest[k..];
    FirstWordNoSpace(a);
    SpaceRun(rest);
    assert Blank(gap) && gap != [] by {
      assert forall i :: 0 <= i < k ==> gap[i] == rest[i];
      assert rest[0] == a[n];
    }
    assert a == w + gap + c;
    assert c != [] ==> c[0] == rest[k];
  }

  /** Lower-casing works character by character: on a concatenation it is the
      lower-cased parts, concatenated. */
  lemma {:induction false} LowerAppend(a: string, b: string)
    ensures Lower(a + b) == Lower(a) + Lower(b)
  {
    var whole, parts := Lower(a + b), Lower(a) + Lower(b);
    forall i | 0 <= i < |whole|
      ensures whole[i] == parts[i]
    {
      if i < |a| {
        assert (a + b)[i] == a[i];
      } else {
        assert (a + b)[i] == b[i - |a|];
      }
    }
  }

  /**
   * A non-empty run of whitespace anywhere in the attribute (spaces, tabs, newlines,
   * several in a row) separates tags: the tags of `a + g + b` are those of `a` followed
   * by those of `b`. With `a` or `b` empty, leading and trailing whitespace adds nothing.
   */
  lemma {:induction false} TagsOfGap(a: string, g: string, b: string)
    requires Blank(g) && g != []
    ensures GetTags(Some(a + g + b)) == GetTags(Some(a)) + GetTags(Some(b))
  {
    LowerAppend(a + g, b);
    LowerAppend(a, g);
    TokensGap(Lower(a), Lower(g), Lower(b));
  }

  /** An attribute that is a single whitespace-free word has that word, lower-cased, as
      its one tag. */
  lemma {:induction false} TagsOfWord(w: string)
    requires w != [] && NoSpace(w)
    ensures GetTags(Some(w)) == [Lower(w)]
  {
    var low := Lower(w);
    assert NoSpace(low);
    SplitWsOfWord(low);
    assert [low][1..] == [];
  }

  /** A mixed-case attribute with a tab and several spaces: `data-tags="Web\t  UI"`
      gives the tags "web" and "ui". */
  lemma {:induction false} TagsOfMixedCaseAttribute()
    ensures GetTags(Some("Web\t  UI")) == ["web", "ui"]
  {
    MixedCaseParts();
    TagsOfGap("Web", "\t  ", "UI");
    TagsOfWord("Web");
    TagsOfWord("UI");
    MixedCaseWords();
  }

  lemma MixedCaseParts()
    ensures "Web\t  UI" == "Web" + "\t  " + "UI"
    ensures NoSpace("Web") && NoSpace("UI") && Blank("\t  ")
  {
  }

  lemma MixedCaseWords()
    ensures Lower("Web") == "web" && Lower("UI") == "ui"
  {
    assert Lower("Web")[0] == 'w';
    assert Lower("UI")[0] == 'u' && Lower("UI")[1] == 'i';
  }
}
