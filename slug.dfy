/**
 * The names a boss row is built from (render-html.mjs:5-16 and 28-36): the
 * wiki slug `slugify` makes from the display name, the image slug derived
 * from the wiki slug, and the nice name shown in the table.
 */
module Slug {
  import opened Wrappers
  import opened JsString
  import Ascii
  import Uri

  // ---------------------------------------------------------------------
  // Title-casing a name that starts in lower case.

  /** `/^\p{Lowercase}/u.test(name)`. */
  predicate StartsLower(s: string)
  {
    |s| > 0 && Ascii.IsLower(s[0])
  }

  /** `\b` before index `i` when `s[i]` is a word character. */
  predicate AtWordStart(s: string, i: int)
    requires 0 <= i < |s|
  {
    i == 0 || !Ascii.IsWordChar(s[i - 1])
  }

  /**
   * The scan of `replaceAll(/\b\p{Lowercase}/gu, toUpperCase)` over `s`;
   * `afterWord` says whether the character before `s` is a word character.
   */
  function TitleCaseFrom(s: string, afterWord: bool): string
  {
    if s == [] then []
    else
      var c := if Ascii.IsLower(s[0]) && !afterWord then Ascii.ToUpper(s[0]) else s[0];
      [c] + TitleCaseFrom(s[1..], Ascii.IsWordChar(s[0]))
  }

  function TitleCase(s: string): string
  {
    TitleCaseFrom(s, false)
  }

  lemma {:induction false} TitleCaseFromAt(s: string, afterWord: bool)
    ensures |TitleCaseFrom(s, afterWord)| == |s|
    ensures forall i :: 0 <= i < |s| ==>
      TitleCaseFrom(s, afterWord)[i] ==
        if Ascii.IsLower(s[i]) && (if i == 0 then !afterWord else !Ascii.IsWordChar(s[i - 1]))
        then Ascii.ToUpper(s[i]) else s[i]
  {
    if s != [] {
      var tail := s[1..];
      TitleCaseFromAt(tail, Ascii.IsWordChar(s[0]));
      var r := TitleCaseFrom(s, afterWord);
      forall i | 0 <= i < |s|
        ensures r[i] ==
          if Ascii.IsLower(s[i]) && (if i == 0 then !afterWord else !Ascii.IsWordChar(s[i - 1]))
          then Ascii.ToUpper(s[i]) else s[i]
      {
        if i > 0 {
          assert r[i] == TitleCaseFrom(tail, Ascii.IsWordChar(s[0]))[i - 1];
          assert tail[i - 1] == s[i];
          if i > 1 {
            assert tail[i - 2] == s[i - 1];
          }
        }
      }
    }
  }

  /** Exactly the lower-case letters that start a word are capitalised. */
  lemma TitleCaseAt(s: string)
    ensures |TitleCase(s)| == |s|
    ensures forall i :: 0 <= i < |s| ==>
      TitleCase(s)[i] == if Ascii.IsLower(s[i]) && AtWordStart(s, i) then Ascii.ToUpper(s[i]) else s[i]
  {
    TitleCaseFromAt(s, false);
    forall i | 0 <= i < |s|
      ensures TitleCase(s)[i] == if Ascii.IsLower(s[i]) && AtWordStart(s, i) then Ascii.ToUpper(s[i]) else s[i]
    {
      assert TitleCase(s)[i] == TitleCaseFrom(s, false)[i];
      assert AtWordStart(s, i) == (if i == 0 then !false else !Ascii.IsWordChar(s[i - 1]));
    }
  }

  /** Title-casing a title-cased name changes nothing. */
  lemma TitleCaseIdempotent(s: string)
    ensures TitleCase(TitleCase(s)) == TitleCase(s)
  {
    var t := TitleCase(s);
    TitleCaseAt(s);
    TitleCaseAt(t);
    forall i | 0 <= i < |t|
      ensures TitleCase(t)[i] == t[i]
    {
      if i > 0 {
        assert Ascii.IsWordChar(t[i - 1]) == Ascii.IsWordChar(s[i - 1]);
      }
    }
  }

  /** The name after the first step of `slugify`. */
  function CasedName(name: string): string
  {
    if StartsLower(name) then TitleCase(name) else name
  }

  /**
   * A name that does not start in lower case reaches the rewrites unchanged;
   * one that does has every lower-case letter at a word start capitalised.
   */
  lemma CasedNameAt(name: string)
    ensures !StartsLower(name) ==> CasedName(name) == name
    ensures |CasedName(name)| == |name|
    ensures StartsLower(name) ==> forall i :: 0 <= i < |name| ==>
      CasedName(name)[i] ==
        if Ascii.IsLower(name[i]) && AtWordStart(name, i) then Ascii.ToUpper(name[i]) else name[i]
    ensures StartsLower(name) ==> Ascii.IsUpper(CasedName(name)[0])
  {
    TitleCaseAt(name);
  }

  // ---------------------------------------------------------------------
  // The connector rewrites ` The ` and ` Of `, with `_` or a space around them.

  function Connector(sep: char, word: string): string
  {
    [sep] + word + [sep]
  }

  /** `s.replaceAll(sep + word + sep, sep + lowered + sep)`. */
  function LowerWord(s: string, sep: char, word: string, lowered: string): string
  {
    ReplaceAll(s, Connector(sep, word), Pattern(Connector(sep, lowered)))
  }

  /** `.replaceAll(sep + 'The' + sep, sep + 'the' + sep).replaceAll(sep + 'Of' + sep, sep + 'of' + sep)`. */
  function LowerConnectors(s: string, sep: char): string
  {
    LowerWord(LowerWord(s, sep, "The", "the"), sep, "Of", "of")
  }

  /** A text without `sep word sep` is kept by that rewrite. */
  lemma LowerWordAbsent(s: string, sep: char, word: string, lowered: string)
    requires !Occurs(s, Connector(sep, word))
    ensures LowerWord(s, sep, word, lowered) == s
  {
    ReplaceAllAbsent(s, Connector(sep, word), Pattern(Connector(sep, lowered)));
  }

  /**
   * One connector rewrite at work: the text up to the first `sep word sep`
   * is kept, that occurrence becomes `sep lowered sep`, and the rewrite goes
   * on after it.
   */
  lemma LowerWordFirst(s: string, sep: char, word: string, lowered: string, p: nat)
    requires sep != '$' && '$' !in lowered
    requires IsFirstOccurrence(s, Connector(sep, word), p)
    ensures LowerWord(s, sep, word, lowered) ==
      s[..p] + Connector(sep, lowered) + LowerWord(s[p + |word| + 2..], sep, word, lowered)
  {
    var pat, t := Connector(sep, word), Connector(sep, lowered);
    assert |pat| == |word| + 2;
    assert '$' !in t by {
      assert forall i :: 0 <= i < |t| ==> t[i] == sep || t[i] in lowered;
    }
    PlainPatternIsLiteral(s, pat, t);
    PlainPatternIsLiteral(s[p + |pat|..], pat, t);
    ReplaceAllIsRepeatedReplace(s, pat, t, p);
  }

  /**
   * Rewriting `pat` into `t`, which differ only at offset `d`, changes a
   * character only at offset `d` of an occurrence of `pat`.
   */
  lemma RewriteOneLetter(s: string, pat: string, t: string, d: nat)
    requires |pat| > 0 && |t| == |pat| && d < |pat| && '$' !in t
    requires forall e :: 0 <= e < |pat| && e != d ==> pat[e] == t[e]
    ensures |ReplaceAll(s, pat, Pattern(t))| == |s|
    ensures forall k :: 0 <= k < |s| ==>
      ReplaceAll(s, pat, Pattern(t))[k] == s[k] ||
      (s[k] == pat[d] && ReplaceAll(s, pat, Pattern(t))[k] == t[d] && OccursAt(s, pat, k - d))
  {
    PlainPatternIsLiteral(s, pat, t);
    SameLengthRewrite(s, pat, t);
    var out := ReplaceAll(s, pat, Computed(t));
    forall k | 0 <= k < |s| && out[k] != s[k]
      ensures s[k] == pat[d] && out[k] == t[d] && OccursAt(s, pat, k - d)
    {
      var j :| PutsAt(s, pat, t, j, k, out[k]);
      var e := k - j;
      assert s[j..j + |pat|] == pat;
      assert s[k] == pat[e] by { assert s[k] == s[j..j + |pat|][e]; }
      assert out[k] == t[e];
      assert e == d;
    }
  }

  /** Where `sep The sep` was lowered, `sep Of sep` occurs exactly where it did before. */
  lemma OfOccursAlike(s: string, theLowered: string, sep: char, j: int)
    requires sep == '_' || sep == ' '
    requires |theLowered| == |s|
    requires forall k :: 0 <= k < |s| ==> theLowered[k] == s[k] || (s[k] == 'T' && theLowered[k] == 't')
    ensures OccursAt(theLowered, Connector(sep, "Of"), j) <==> OccursAt(s, Connector(sep, "Of"), j)
  {
    var pat := Connector(sep, "Of");
    assert pat == [sep, 'O', 'f', sep];
    if 0 <= j && j + 4 <= |s| {
      var a, b := s[j..j + 4], theLowered[j..j + 4];
      assert forall e :: 0 <= e < 4 ==> a[e] == s[j + e] && b[e] == theLowered[j + e];
      assert forall e :: 0 <= e < 4 ==> (a[e] == pat[e] <==> b[e] == pat[e]);
      assert a == pat <==> b == pat;
    }
  }

  /**
   * Lowering the connectors keeps the length and changes only the `T` of an
   * occurrence of `sep The sep` into `t` and the `O` of an occurrence of
   * `sep Of sep` into `o`.
   */
  lemma LowerConnectorsAt(s: string, sep: char)
    requires sep == '_' || sep == ' '
    ensures |LowerConnectors(s, sep)| == |s|
    ensures forall k :: 0 <= k < |s| ==>
      LowerConnectors(s, sep)[k] == s[k] ||
      (s[k] == 'T' && LowerConnectors(s, sep)[k] == 't' && OccursAt(s, Connector(sep, "The"), k - 1)) ||
      (s[k] == 'O' && LowerConnectors(s, sep)[k] == 'o' && OccursAt(s, Connector(sep, "Of"), k - 1))
  {
    var the, the' := Connector(sep, "The"), Connector(sep, "the");
    var of, of' := Connector(sep, "Of"), Connector(sep, "of");
    assert the == [sep, 'T', 'h', 'e', sep] && the' == [sep, 't', 'h', 'e', sep];
    assert of == [sep, 'O', 'f', sep] && of' == [sep, 'o', 'f', sep];
    var mid := ReplaceAll(s, the, Pattern(the'));
    var r := LowerConnectors(s, sep);
    RewriteOneLetter(s, the, the', 1);
    RewriteOneLetter(mid, of, of', 1);
    forall k | 0 <= k < |s|
      ensures r[k] == s[k] ||
        (s[k] == 'T' && r[k] == 't' && OccursAt(s, the, k - 1)) ||
        (s[k] == 'O' && r[k] == 'o' && OccursAt(s, of, k - 1))
    {
      OfOccursAlike(s, mid, sep, k - 1);
    }
  }

  /** A name without either connector is kept as it is. */
  lemma LowerConnectorsAbsent(s: string, sep: char)
    requires !Occurs(s, Connector(sep, "The")) && !Occurs(s, Connector(sep, "Of"))
    ensures LowerConnectors(s, sep) == s
  {
    ReplaceAllAbsent(s, Connector(sep, "The"), Pattern(Connector(sep, "the")));
    ReplaceAllAbsent(s, Connector(sep, "Of"), Pattern(Connector(sep, "of")));
  }

  /** "Lady Of The Lake" with `sep` between the words, as the rewrites see it. */
  function LadyOfTheLake(sep: char, of: char, the: char): string
  {
    "Lady" + [sep] + [of, 'f'] + [sep] + [the, 'h', 'e'] + [sep] + "Lake"
  }

  lemma LadyOfTheLakeSpelled()
    ensures LadyOfTheLake(' ', 'O', 'T') == "Lady Of The Lake"
    ensures LadyOfTheLake(' ', 'o', 't') == "Lady of the Lake"
    ensures LadyOfTheLake('_', 'o', 't') == "Lady_of_the_Lake"
  {
  }

  /** A text with a single `sep word sep` gets exactly that occurrence lowered. */
  lemma LowerWordOnce(s: string, sep: char, word: string, lowered: string, p: nat, end: nat)
    requires sep != '$' && '$' !in lowered
    requires IsFirstOccurrence(s, Connector(sep, word), p) && end == p + |word| + 2
    requires !Occurs(s[end..], Connector(sep, word))
    ensures LowerWord(s, sep, word, lowered) == s[..p] + Connector(sep, lowered) + s[end..]
  {
    LowerWordFirst(s, sep, word, lowered, p);
    LowerWordAbsent(s[end..], sep, word, lowered);
  }

  /** Where `sep The sep` sits in "Lady Of The Lake", and what lowering it leaves. */
  lemma LadyTheSplit(sep: char)
    requires sep == '_' || sep == ' '
    ensures IsFirstOccurrence(LadyOfTheLake(sep, 'O', 'T'), Connector(sep, "The"), 7)
    ensures !Occurs(LadyOfTheLake(sep, 'O', 'T')[12..], Connector(sep, "The"))
    ensures LadyOfTheLake(sep, 'O', 'T')[..7] + Connector(sep, "the") + LadyOfTheLake(sep, 'O', 'T')[12..]
      == LadyOfTheLake(sep, 'O', 't')
  {
    var s := LadyOfTheLake(sep, 'O', 'T');
    var the := Connector(sep, "The");
    assert the == [sep, 'T', 'h', 'e', sep];
    assert s[7..12] == the;
    forall q | 0 <= q < 7
      ensures !OccursAt(s, the, q)
    {
      assert s[q..q + 5][0] == s[q] && s[q..q + 5][1] == s[q + 1];
    }
    assert Connector(sep, "the") == [sep, 't', 'h', 'e', sep];
    var r := s[..7] + Connector(sep, "the") + s[12..];
    assert forall i :: 0 <= i < 16 ==> r[i] == LadyOfTheLake(sep, 'O', 't')[i];
  }

  /** Where `sep Of sep` sits in "Lady Of the Lake", and what lowering it leaves. */
  lemma LadyOfSplit(sep: char)
    requires sep == '_' || sep == ' '
    ensures IsFirstOccurrence(LadyOfTheLake(sep, 'O', 't'), Connector(sep, "Of"), 4)
    ensures !Occurs(LadyOfTheLake(sep, 'O', 't')[8..], Connector(sep, "Of"))
    ensures LadyOfTheLake(sep, 'O', 't')[..4] + Connector(sep, "of") + LadyOfTheLake(sep, 'O', 't')[8..]
      == LadyOfTheLake(sep, 'o', 't')
  {
    var s := LadyOfTheLake(sep, 'O', 't');
    var of := Connector(sep, "Of");
    assert of == [sep, 'O', 'f', sep];
    assert s[4..8] == of;
    forall q | 0 <= q < 4
      ensures !OccursAt(s, of, q)
    {
      assert s[q..q + 4][0] == s[q];
    }
    var rest := s[8..];
    forall q | 0 <= q <= |rest|
      ensures !OccursAt(rest, of, q)
    {
      if q + 4 <= |rest| {
        assert rest[q..q + 4][1] == rest[q + 1];
      }
    }
    assert Connector(sep, "of") == [sep, 'o', 'f', sep];
    var r := s[..4] + Connector(sep, "of") + rest;
    assert forall i :: 0 <= i < 16 ==> r[i] == LadyOfTheLake(sep, 'o', 't')[i];
  }

  /** Both connectors of "Lady Of The Lake" are lowered, with either separator. */
  lemma LadyOfTheLakeLowered(sep: char)
    requires sep == '_' || sep == ' '
    ensures LowerConnectors(LadyOfTheLake(sep, 'O', 'T'), sep) == LadyOfTheLake(sep, 'o', 't')
  {
    var s, mid := LadyOfTheLake(sep, 'O', 'T'), LadyOfTheLake(sep, 'O', 't');
    LadyTheSplit(sep);
    LowerWordOnce(s, sep, "The", "the", 7, 12);
    assert LowerWord(s, sep, "The", "the") == mid;
    LadyOfSplit(sep);
    LowerWordOnce(mid, sep, "Of", "of", 4, 8);
  }

  // ---------------------------------------------------------------------
  // slugify

  /** The `underscored` name of `slugify`. */
  function Underscored(cased: string): string
  {
    LowerConnectors(ReplaceAll(cased, " ", Pattern("_")), '_')
  }

  /** `slugify(name)`: the page name on the wiki, percent-encoded. */
  function WikiSlug(name: string): string
  {
    Uri.Encode(Underscored(CasedName(name)))
  }

  /**
   * The underscored name is as long as the cased name and has no space; a
   * space became `_`, and otherwise only the `T` of `_The_` and the `O` of
   * `_Of_` were lowered.
   */
  lemma UnderscoredAt(cased: string)
    ensures |Underscored(cased)| == |cased|
    ensures ' ' !in Underscored(cased)
    ensures forall k :: 0 <= k < |cased| ==>
      Underscored(cased)[k] == (if cased[k] == ' ' then '_' else cased[k]) ||
      (cased[k] == 'T' && Underscored(cased)[k] == 't' &&
        OccursAt(ReplaceAll(cased, " ", Pattern("_")), "_The_", k - 1)) ||
      (cased[k] == 'O' && Underscored(cased)[k] == 'o' &&
        OccursAt(ReplaceAll(cased, " ", Pattern("_")), "_Of_", k - 1))
  {
    var spaced := ReplaceAll(cased, " ", Pattern("_"));
    PlainPatternIsLiteral(cased, " ", "_");
    SingleCharMap(cased, ' ', '_');
    LowerConnectorsAt(spaced, '_');
    assert Connector('_', "The") == "_The_" && Connector('_', "Of") == "_Of_";
    var u := Underscored(cased);
    forall k | 0 <= k < |cased|
      ensures u[k] != ' '
      ensures u[k] == (if cased[k] == ' ' then '_' else cased[k]) ||
        (cased[k] == 'T' && u[k] == 't' && OccursAt(spaced, "_The_", k - 1)) ||
        (cased[k] == 'O' && u[k] == 'o' && OccursAt(spaced, "_Of_", k - 1))
    {
      assert spaced[k] == (if cased[k] == ' ' then '_' else cased[k]);
    }
  }

  /** Replacing a character the word lacks keeps the word. */
  lemma MapAbsentChar(w: string, a: char, b: char)
    requires a !in w
    ensures ReplaceAll(w, [a], Computed([b])) == w
  {
    forall i | 0 <= i <= |w|
      ensures !OccursAt(w, [a], i)
    {
      if i + 1 <= |w| {
        assert w[i..i + 1][0] == w[i];
      }
    }
    ReplaceAllAbsent(w, [a], Computed([b]));
  }

  /** Appending a separator and a word to a text whose separators were mapped. */
  lemma MapSeparatorThenWord(x: string, mapped: string, w: string, a: char, b: char)
    requires ReplaceAll(x, [a], Computed([b])) == mapped && a !in w
    ensures ReplaceAll(x + [a] + w, [a], Computed([b])) == mapped + [b] + w
  {
    SingleCharDistributes(x + [a], w, a, [b]);
    SingleCharDistributes(x, [a], a, [b]);
    SingleCharUnfold([a], a, [b]);
    ReplaceAllAbsent([], [a], Computed([b]));
    MapAbsentChar(w, a, b);
  }

  /** The spaces of "Lady Of The Lake" become `sep`. */
  lemma SpacedLadyOfTheLake(space: char, sep: char)
    requires space == ' ' && sep == '_'
    ensures ReplaceAll(LadyOfTheLake(space, 'O', 'T'), [space], Pattern([sep])) == LadyOfTheLake(sep, 'O', 'T')
  {
    var lady, of, the, lake := "Lady", "Of", "The", "Lake";
    MapAbsentChar(lady, space, sep);
    MapSeparatorThenWord(lady, lady, of, space, sep);
    MapSeparatorThenWord(lady + [space] + of, lady + [sep] + of, the, space, sep);
    MapSeparatorThenWord(lady + [space] + of + [space] + the, lady + [sep] + of + [sep] + the, lake, space, sep);
    PlainPatternIsLiteral(LadyOfTheLake(space, 'O', 'T'), [space], [sep]);
  }

  /** Spaces become `_`, and then both connectors are lowered. */
  lemma UnderscoredLadyOfTheLake()
    ensures Underscored("Lady Of The Lake") == "Lady_of_the_Lake"
  {
    LadyOfTheLakeSpelled();
    SpacedLadyOfTheLake(' ', '_');
    LadyOfTheLakeLowered('_');
  }

  /** `decodeURIComponent` of the wiki slug gives back the underscored name. */
  lemma WikiSlugDecodes(name: string)
    ensures Uri.Decode(WikiSlug(name)) == Some(Underscored(CasedName(name)))
  {
    Uri.DecodeEncode(Underscored(CasedName(name)));
  }

  /** The wiki slug is a URI component: unreserved characters and `%XX` escapes only. */
  lemma WikiSlugShape(name: string)
    ensures Uri.IsEncoded(WikiSlug(name))
    ensures Uri.EscapesFollowedBy(WikiSlug(name), Uri.IsUpperHexDigit)
  {
    Uri.EncodeShape(Underscored(CasedName(name)));
  }

  // ---------------------------------------------------------------------
  // The image slug and the nice name.

  /** `wikiSlug.toLowerCase().replaceAll('_', '-').replaceAll('\'', '').replaceAll('.', '')`. */
  function ImageSlug(wikiSlug: string): string
  {
    var dashed := ReplaceAll(Ascii.LowerCase(wikiSlug), "_", Pattern("-"));
    ReplaceAll(ReplaceAll(dashed, "'", Pattern("")), ".", Pattern(""))
  }

  /** `boss.name.replaceAll(' The ', ' the ').replaceAll(' Of ', ' of ')`. */
  function NiceName(name: string): string
  {
    LowerConnectors(name, ' ')
  }

  predicate IsLowerHexDigit(c: char)
  {
    Ascii.IsDigit(c) || 'a' <= c <= 'f'
  }

  /** The characters an image slug is made of. */
  predicate IsImageSlugChar(c: char)
  {
    Ascii.IsLower(c) || Ascii.IsDigit(c) || c in "-!~*()%"
  }

  predicate IsImageSlug(s: string)
  {
    (forall i :: 0 <= i < |s| ==> IsImageSlugChar(s[i])) && Uri.EscapesFollowedBy(s, IsLowerHexDigit)
  }

  lemma LowerCaseOfComponent(w: string)
    requires Uri.IsEncoded(w) && Uri.EscapesFollowedBy(w, Uri.IsUpperHexDigit)
    ensures Uri.EscapesFollowedBy(Ascii.LowerCase(w), IsLowerHexDigit)
    ensures forall i :: 0 <= i < |w| ==>
      IsImageSlugChar(Ascii.LowerCase(w)[i]) || Ascii.LowerCase(w)[i] in "_'."
  {
  }

  lemma DashesOfLowered(l: string)
    requires Uri.EscapesFollowedBy(l, IsLowerHexDigit)
    requires forall i :: 0 <= i < |l| ==> IsImageSlugChar(l[i]) || l[i] in "_'."
    ensures var d := ReplaceAll(l, "_", Pattern("-"));
      Uri.EscapesFollowedBy(d, IsLowerHexDigit) &&
      forall i :: 0 <= i < |d| ==> IsImageSlugChar(d[i]) || d[i] in "'."
  {
    PlainPatternIsLiteral(l, "_", "-");
    SingleCharMap(l, '_', '-');
  }

  lemma EscapesOfCons(x: string, y: string)
    requires Uri.EscapesFollowedBy(y, IsLowerHexDigit)
    requires forall i :: 0 <= i < |x| && x[i] == '%' ==> i + 2 < |x| && IsLowerHexDigit(x[i + 1]) && IsLowerHexDigit(x[i + 2])
    ensures Uri.EscapesFollowedBy(x + y, IsLowerHexDigit)
  {
    var r := x + y;
    forall i | 0 <= i < |r| && r[i] == '%'
      ensures i + 2 < |r| && IsLowerHexDigit(r[i + 1]) && IsLowerHexDigit(r[i + 2])
    {
      if i >= |x| {
        assert r[i] == y[i - |x|] && r[i + 1] == y[i + 1 - |x|] && r[i + 2] == y[i + 2 - |x|];
      } else {
        assert r[i] == x[i] && r[i + 1] == x[i + 1] && r[i + 2] == x[i + 2];
      }
    }
  }

  lemma EscapesOfSuffix(s: string, k: nat)
    requires k <= |s| && Uri.EscapesFollowedBy(s, IsLowerHexDigit)
    ensures Uri.EscapesFollowedBy(s[k..], IsLowerHexDigit)
  {
    var r := s[k..];
    forall i | 0 <= i < |r| && r[i] == '%'
      ensures i + 2 < |r| && IsLowerHexDigit(r[i + 1]) && IsLowerHexDigit(r[i + 2])
    {
      assert r[i] == s[k + i] && r[i + 1] == s[k + i + 1] && r[i + 2] == s[k + i + 2];
    }
  }

  /** Deleting a character that is neither `%` nor a hex digit keeps every escape whole. */
  lemma {:induction false} RemoveKeepsEscapes(s: string, a: char)
    requires a != '%' && !IsLowerHexDigit(a)
    requires Uri.EscapesFollowedBy(s, IsLowerHexDigit)
    ensures Uri.EscapesFollowedBy(ReplaceAll(s, [a], Computed([])), IsLowerHexDigit)
    decreases |s|
  {
    if s == [] {
      ReplaceAllAbsent(s, [a], Computed([]));
    } else {
      SingleCharUnfold(s, a, []);
      EscapesOfSuffix(s, 1);
      RemoveKeepsEscapes(s[1..], a);
      if s[0] == '%' {
        var t := s[1..];
        SingleCharUnfold(t, a, []);
        SingleCharUnfold(t[1..], a, []);
        EscapesOfSuffix(s, 3);
        assert t[1..][1..] == s[3..];
        RemoveKeepsEscapes(s[3..], a);
        EscapesOfCons([s[0], s[1], s[2]], ReplaceAll(s[3..], [a], Computed([])));
        assert [s[0]] + ([t[0]] + ([t[1..][0]] + ReplaceAll(s[3..], [a], Computed([])))) ==
          [s[0], s[1], s[2]] + ReplaceAll(s[3..], [a], Computed([]));
      } else if s[0] != a {
        EscapesOfCons([s[0]], ReplaceAll(s[1..], [a], Computed([])));
      }
    }
  }

  lemma RemoveChar(s: string, a: char)
    requires a != '%' && !IsLowerHexDigit(a)
    requires Uri.EscapesFollowedBy(s, IsLowerHexDigit)
    ensures var r := ReplaceAll(s, [a], Pattern([]));
      Uri.EscapesFollowedBy(r, IsLowerHexDigit) && multiset(r) == multiset(s)[a := 0]
  {
    PlainPatternIsLiteral(s, [a], []);
    RemoveKeepsEscapes(s, a);
    SingleCharRemove(s, a);
  }

  /**
   * The image slug of a URI component has no upper-case letter, `_`, `'` or
   * `.`, and its escapes are `%` with two lower-case hex digits.
   */
  lemma ImageSlugShape(wikiSlug: string)
    requires Uri.IsEncoded(wikiSlug) && Uri.EscapesFollowedBy(wikiSlug, Uri.IsUpperHexDigit)
    ensures IsImageSlug(ImageSlug(wikiSlug))
  {
    var l := Ascii.LowerCase(wikiSlug);
    LowerCaseOfComponent(wikiSlug);
    DashesOfLowered(l);
    var d := ReplaceAll(l, "_", Pattern("-"));
    RemoveChar(d, '\'');
    var q := ReplaceAll(d, "'", Pattern(""));
    RemoveChar(q, '.');
    var r := ReplaceAll(q, ".", Pattern(""));
    forall i | 0 <= i < |r|
      ensures IsImageSlugChar(r[i])
    {
      assert r[i] in multiset(r);
      assert r[i] in multiset(q) && r[i] != '.';
      assert r[i] in q;
      assert r[i] in multiset(d) && r[i] != '\'';
      assert r[i] in d;
    }
  }

  /** The image slug of every boss name. */
  lemma ImageSlugOfName(name: string)
    ensures IsImageSlug(ImageSlug(WikiSlug(name)))
    ensures forall i :: 0 <= i < |ImageSlug(WikiSlug(name))| ==>
      var c := ImageSlug(WikiSlug(name))[i];
      !Ascii.IsUpper(c) && c != '_' && c != '\'' && c != '.'
  {
    WikiSlugShape(name);
    ImageSlugShape(WikiSlug(name));
  }

  /**
   * The nice name is as long as the name, and differs from it only where
   * ` The ` and ` Of ` became ` the ` and ` of `.
   */
  lemma NiceNameAt(name: string)
    ensures |NiceName(name)| == |name|
    ensures forall k :: 0 <= k < |name| ==>
      NiceName(name)[k] == name[k] ||
      (name[k] == 'T' && NiceName(name)[k] == 't' && OccursAt(name, " The ", k - 1)) ||
      (name[k] == 'O' && NiceName(name)[k] == 'o' && OccursAt(name, " Of ", k - 1))
  {
    LowerConnectorsAt(name, ' ');
    assert Connector(' ', "The") == " The " && Connector(' ', "Of") == " Of ";
  }

  /** Both connectors of a boss name are lowered for display. */
  lemma NiceNameOfLadyOfTheLake()
    ensures NiceName("Lady Of The Lake") == "Lady of the Lake"
  {
    LadyOfTheLakeSpelled();
    LadyOfTheLakeLowered(' ');
  }

  // ---------------------------------------------------------------------
  // Characters the three derived names cannot hold.

  /** A character `encodeURIComponent` escapes is not in the wiki slug. */
  lemma WikiSlugLacks(name: string, c: char)
    requires !Uri.IsUnreserved(c) && c != '%'
    ensures c !in WikiSlug(name)
  {
    Uri.EncodeLacks(Underscored(CasedName(name)), c);
  }

  /** A character outside the image-slug alphabet is not in the image slug. */
  lemma ImageSlugLacks(name: string, c: char)
    requires !IsImageSlugChar(c)
    ensures c !in ImageSlug(WikiSlug(name))
  {
    ImageSlugOfName(name);
    var m := ImageSlug(WikiSlug(name));
    assert forall i :: 0 <= i < |m| ==> m[i] != c;
  }

  /** The nice name holds no character the name lacks, except the lowered `t` and `o`. */
  lemma NiceNameLacks(name: string, c: char)
    requires c !in name && c != 't' && c != 'o'
    ensures c !in NiceName(name)
  {
    NiceNameAt(name);
    var m := NiceName(name);
    assert forall k :: 0 <= k < |m| ==> m[k] != c;
  }
}
