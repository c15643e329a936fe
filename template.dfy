/**
 * The page template: `htmlTemplate.replaceAll('%%%WORLD%%%', world)
 * .replace('%%%DATA%%%', render(data))`.  Every world token is replaced,
 * and only the first data token.
 *
 * Both calls pass a string as the replacement, so ECMAScript expands the
 * `$` patterns in `world` and in the rendered page.  `ComposeAsWritten`
 * models that; `Compose` inserts both texts as they are, which is what the
 * script means to do.
 */
module Template {
  import opened Wrappers
  import opened JsString
  import Render

  const WorldToken := "%%%WORLD%%%"
  const DataToken := "%%%DATA%%%"

  /** Lines 62-64 as written: `world` and the page are replacement patterns. */
  function ComposeAsWritten(template: string, world: string, page: string): string
  {
    Replace(ReplaceAll(template, WorldToken, Pattern(world)), DataToken, Pattern(page))
  }

  /** `world` into every world token, then the page into the first data token, both verbatim. */
  function Compose(template: string, world: string, page: string): string
  {
    Replace(ReplaceAll(template, WorldToken, Computed(world)), DataToken, Computed(page))
  }

  /** The document the script writes before minifying, or the error `render` throws. */
  function Document(template: string, world: string, report: Render.Report): Result<string, Render.RenderError>
  {
    match Render.Page(report)
    case Failure(e) => Failure(e)
    case Success(page) => Success(Compose(template, world, page))
  }

  // ---------------------------------------------------------------------
  // The `$` patterns

  /** A page of `$$` put into a bare data token comes out as a single `$`. */
  lemma DollarPatternsExpanded()
    ensures ComposeAsWritten(DataToken, "Vunira", "$$") == "$"
    ensures Compose(DataToken, "Vunira", "$$") == "$$"
  {
    var s := ReplaceAll(DataToken, WorldToken, Pattern("Vunira"));
    var s' := ReplaceAll(DataToken, WorldToken, Computed("Vunira"));
    assert s == DataToken && s' == DataToken;
    assert IsFirstOccurrence(DataToken, DataToken, 0);
    assert DataToken[..0] == [] && DataToken[|DataToken|..] == [];
    assert Expand("$$", DataToken, 0, |DataToken|) == "$" by {
      assert "$$"[2..] == [];
    }
  }

  /** A world name of `$&` puts the world token itself back into the page. */
  lemma MatchPatternExpanded()
    ensures ComposeAsWritten(WorldToken, "$&", "") == WorldToken
    ensures Compose(WorldToken, "$&", "") == "$&"
  {
    assert IsFirstOccurrence(WorldToken, WorldToken, 0);
    assert WorldToken[..0] == [] && WorldToken[|WorldToken|..] == [];
    ReplaceAllIsRepeatedReplace(WorldToken, WorldToken, "$&", 0);
    assert ReplaceAll([], WorldToken, Computed("$&")) == [];
    assert ReplaceAll(WorldToken, WorldToken, Computed("$&")) == "$&";
    assert ReplaceAll(WorldToken, WorldToken, Pattern("$&")) == WorldToken by {
      var rep := ReplacementAt(Pattern("$&"), WorldToken, |WorldToken|);
      assert WorldToken[..|WorldToken|] == WorldToken;
      assert rep(0) == Expand("$&", WorldToken, 0, |WorldToken|);
      assert Expand("$&", WorldToken, 0, |WorldToken|) == WorldToken + Expand([], WorldToken, 0, |WorldToken|) by {
        assert "$&"[2..] == [];
        assert WorldToken[0..0 + |WorldToken|] == WorldToken;
      }
      assert ReplaceFrom(WorldToken[|WorldToken|..], WorldToken, rep, |WorldToken|) == [];
    }
    assert !Occurs(WorldToken, DataToken) by {
      assert WorldToken[3] == 'W' && WorldToken[4] == 'O' && DataToken[3] == 'D';
      forall i | 0 <= i <= |WorldToken|
        ensures !OccursAt(WorldToken, DataToken, i)
      {
        if i + |DataToken| <= |WorldToken| {
          assert WorldToken[i..i + |DataToken|][3] == WorldToken[i + 3];
        }
      }
    }
    assert !Occurs("$&", DataToken);
  }

  /** `replace` with a replacement string that has no `$` is the verbatim replacement. */
  lemma PlainReplaceIsLiteral(s: string, pat: string, t: string)
    requires '$' !in t
    ensures Replace(s, pat, Pattern(t)) == Replace(s, pat, Computed(t))
  {
    match IndexOf(s, pat, 0)
    case None =>
      assert !Occurs(s, pat);
    case Some(p) =>
      assert IsFirstOccurrence(s, pat, p);
  }

  /** Without `$` in the world name or the page, the script does what it means to. */
  lemma AsWrittenWithoutDollar(template: string, world: string, page: string)
    requires '$' !in world && '$' !in page
    ensures ComposeAsWritten(template, world, page) == Compose(template, world, page)
  {
    PlainPatternIsLiteral(template, WorldToken, world);
    PlainReplaceIsLiteral(ReplaceAll(template, WorldToken, Computed(world)), DataToken, page);
  }

  // ---------------------------------------------------------------------
  // Every world token, the first data token

  /**
   * The world step replaces the first world token and goes on after it;
   * without a world token the template is kept.
   */
  lemma WorldEverywhere(template: string, world: string)
    ensures !Occurs(template, WorldToken) ==> ReplaceAll(template, WorldToken, Computed(world)) == template
    ensures forall p: nat :: IsFirstOccurrence(template, WorldToken, p) ==>
      ReplaceAll(template, WorldToken, Computed(world)) ==
        template[..p] + world + ReplaceAll(template[p + |WorldToken|..], WorldToken, Computed(world))
  {
    if !Occurs(template, WorldToken) {
      ReplaceAllAbsent(template, WorldToken, Computed(world));
    }
    forall p: nat | IsFirstOccurrence(template, WorldToken, p)
      ensures ReplaceAll(template, WorldToken, Computed(world)) ==
        template[..p] + world + ReplaceAll(template[p + |WorldToken|..], WorldToken, Computed(world))
    {
      ReplaceAllIsRepeatedReplace(template, WorldToken, world, p);
    }
  }

  /**
   * The page goes into the first data token only: what follows that token,
   * including any later data token, is kept as it is.
   */
  lemma FirstDataTokenOnly(template: string, world: string, page: string, p: nat)
    requires IsFirstOccurrence(ReplaceAll(template, WorldToken, Computed(world)), DataToken, p)
    ensures var w := ReplaceAll(template, WorldToken, Computed(world));
      var out := Compose(template, world, page);
      out == w[..p] + page + w[p + |DataToken|..] &&
      out[p + |page|..] == w[p + |DataToken|..]
  {
    var w := ReplaceAll(template, WorldToken, Computed(world));
    ReplaceAllIsRepeatedReplace(w, DataToken, page, p);
    var out := Compose(template, world, page);
    assert out[p + |page|..] == w[p + |DataToken|..];
  }
}
