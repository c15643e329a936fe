/**
 * `render(data)`: one pass over the bosses pushes a table row for each boss
 * onto the killed buffer or the check buffer, then the page is the killed
 * section (when a boss was killed), the check section (when a boss is still
 * to check) and the "Last updated" paragraph.
 */
module Render {
  import opened Wrappers
  import opened JsString
  import Ascii
  import Uri
  import Html
  import NumberFormat
  import Slug

  /** A boss of the input; `chance` is in hundredths of a percent, `None` when absent. */
  datatype Boss = Boss(name: string, killed: bool, chance: Option<int>)

  datatype Report = Report(bosses: seq<Boss>, timestamp: string)

  /** `formatNumber(undefined)` throws a `TypeError` for a pending boss without a chance. */
  datatype RenderError = ChanceMissing

  const CheckHead := "<h2>Bosses to check</h2><div class=\"table-wrapper\"><table><thead><tr><th>Boss<th>Confidence<tbody>"
  const KilledHead := "<h2>Recently killed bosses</h2><div class=\"table-wrapper\"><table><thead><tr><th>Boss<th>Confidence<tbody>"
  const TableEnd := "</table></div>"

  // The fixed text of a row and of the closing paragraph.
  const LinkStart := "<tr><td><a href=\"https://tibia.fandom.com/wiki/"
  const ImageStart := "\"><img src=\"_img/"
  const ImageEnd := ".webp\" width=\"64\" height=\"64\" decoding=\"async\" alt=\"\"> "
  const KilledMark := " (killed)</a><td><s>"
  const StrikeEnd := "</s>"
  const CheckMark := "</a><td>"
  const FooterStart := "<p>Last updated on <time>"
  const FooterEnd := "</time>."

  function Footer(timestamp: string): string
  {
    FooterStart + Html.Escape(timestamp) + FooterEnd
  }

  // ---------------------------------------------------------------------
  // Rows

  /** The start of a row: the wiki link, the image and the escaped nice name. */
  function Anchor(wikiSlug: string, imageSlug: string, niceName: string): string
  {
    LinkStart + wikiSlug + ImageStart + imageSlug + ImageEnd + Html.Escape(niceName)
  }

  function BossAnchor(boss: Boss): string
  {
    var wikiSlug := Slug.WikiSlug(boss.name);
    Anchor(wikiSlug, Slug.ImageSlug(wikiSlug), Slug.NiceName(boss.name))
  }

  /** `boss.chance ? formatNumber(boss.chance) : '?'`: a missing or zero chance shows `?`. */
  function KilledConfidence(chance: Option<int>): (r: string)
    ensures r == "?" <==> chance.None? || chance.value == 0
    ensures chance.Some? && chance.value != 0 ==> NumberFormat.ParseChance(r) == chance
  {
    match chance
    case None => "?"
    case Some(h) =>
      if h == 0 then "?"
      else
        NumberFormat.FormatChanceShape(h);
        NumberFormat.ParseFormat(h);
        NumberFormat.FormatChance(h)
  }

  function KilledCells(chance: Option<int>): string
  {
    KilledMark + KilledConfidence(chance) + StrikeEnd
  }

  function CheckCells(h: int): string
  {
    CheckMark + NumberFormat.FormatChance(h)
  }

  function KilledRow(boss: Boss): string
  {
    BossAnchor(boss) + KilledCells(boss.chance)
  }

  function CheckRow(boss: Boss): string
    requires boss.chance.Some?
  {
    BossAnchor(boss) + CheckCells(boss.chance.value)
  }

  // ---------------------------------------------------------------------
  // The specification of the page

  /** The bosses whose `killed` flag is `killed`, in input order. */
  function Select(bosses: seq<Boss>, killed: bool): seq<Boss>
  {
    if bosses == [] then []
    else
      var last := bosses[|bosses| - 1];
      Select(bosses[..|bosses| - 1], killed) + (if last.killed == killed then [last] else [])
  }

  predicate ChancesKnown(pending: seq<Boss>)
  {
    forall j :: 0 <= j < |pending| ==> pending[j].chance.Some?
  }

  function KilledRows(killed: seq<Boss>): seq<string>
  {
    seq(|killed|, j requires 0 <= j < |killed| => KilledRow(killed[j]))
  }

  function CheckRows(pending: seq<Boss>): seq<string>
    requires ChancesKnown(pending)
  {
    seq(|pending|, j requires 0 <= j < |pending| => CheckRow(pending[j]))
  }

  /** A buffer as `render` joins it: the heading, the rows and the table end. */
  function Section(head: string, rows: seq<string>): string
  {
    Join([head] + rows + [TableEnd], "")
  }

  /**
   * The page made of the rows pushed onto the two buffers: a buffer is
   * joined into the page when a row was pushed onto it.
   */
  function Layout(killedRows: seq<string>, checkRows: seq<string>, timestamp: string): string
  {
    Join([
      if killedRows == [] then "" else Section(KilledHead, killedRows),
      if checkRows == [] then "" else Section(CheckHead, checkRows),
      Footer(timestamp)], "")
  }

  /** The page `render` returns, or the error it throws. */
  function Page(report: Report): Result<string, RenderError>
  {
    var killed, pending := Select(report.bosses, true), Select(report.bosses, false);
    if !ChancesKnown(pending) then Failure(ChanceMissing)
    else Success(Layout(KilledRows(killed), CheckRows(pending), report.timestamp))
  }

  // ---------------------------------------------------------------------
  // render

  /** `Select` over one more boss. */
  lemma SelectPush(bosses: seq<Boss>, i: nat, killed: bool)
    requires i < |bosses|
    ensures Select(bosses[..i + 1], killed) ==
      Select(bosses[..i], killed) + (if bosses[i].killed == killed then [bosses[i]] else [])
  {
    assert bosses[..i + 1][..i] == bosses[..i];
  }

  /** Pushing the row of one more killed boss onto the killed buffer. */
  lemma PushKilled(buffer: seq<string>, killed: seq<Boss>, boss: Boss, row: string)
    requires buffer == [KilledHead] + KilledRows(killed) && [row] == KilledRows([boss])
    ensures buffer + [row] == [KilledHead] + KilledRows(killed + [boss])
  {
    assert KilledRows(killed + [boss]) == KilledRows(killed) + [row];
  }

  /** Pushing the row of one more pending boss onto the check buffer. */
  lemma PushCheck(buffer: seq<string>, pending: seq<Boss>, boss: Boss, row: string)
    requires ChancesKnown(pending) && ChancesKnown([boss])
    requires buffer == [CheckHead] + CheckRows(pending) && [row] == CheckRows([boss])
    ensures ChancesKnown(pending + [boss])
    ensures buffer + [row] == [CheckHead] + CheckRows(pending + [boss])
  {
    assert forall j :: 0 <= j < |pending| ==> (pending + [boss])[j] == pending[j];
    assert CheckRows(pending + [boss]) == CheckRows(pending) + [row];
  }

  /**
   * The row line 39 pushes for a killed boss.  Calling `KilledRow` through
   * this method keeps the text of the row, with its slugs, out of the proof
   * of `Render`, which needs only which row it is.
   */
  method BuildKilledRow(boss: Boss) returns (row: string)
    ensures [row] == KilledRows([boss])
  {
    row := KilledRow(boss);
  }

  /** The row line 43 pushes for a boss still to check; see `BuildKilledRow`. */
  method BuildCheckRow(boss: Boss) returns (row: string)
    requires boss.chance.Some?
    ensures ChancesKnown([boss]) && [row] == CheckRows([boss])
  {
    row := CheckRow(boss);
  }

  method Render(report: Report) returns (r: Result<string, RenderError>)
    ensures r == Page(report)
  {
    var bosses := report.bosses;
    var checkOutput := [CheckHead];
    var killedOutput := [KilledHead];
    var includeCheckOutput := false;
    var includeKilledOutput := false;
    var i := 0;
    while i < |bosses|
      invariant i <= |bosses|
      invariant killedOutput == [KilledHead] + KilledRows(Select(bosses[..i], true))
      invariant includeKilledOutput <==> Select(bosses[..i], true) != []
      invariant ChancesKnown(Select(bosses[..i], false))
      invariant checkOutput == [CheckHead] + CheckRows(Select(bosses[..i], false))
      invariant includeCheckOutput <==> Select(bosses[..i], false) != []
    {
      var boss := bosses[i];
      var killedSoFar, pendingSoFar := Select(bosses[..i], true), Select(bosses[..i], false);
      SelectPush(bosses, i, true);
      SelectPush(bosses, i, false);
      if boss.killed {
        includeKilledOutput := true;
        var row := BuildKilledRow(boss);
        PushKilled(killedOutput, killedSoFar, boss, row);
        killedOutput := killedOutput + [row];
        i := i + 1;
        continue;
      }
      includeCheckOutput := true;
      if boss.chance.None? {
        assert Select(bosses[..i + 1], false)[|pendingSoFar|] == boss;
        MissingChanceStaysMissing(bosses, i + 1);
        return Failure(ChanceMissing);
      }
      var row := BuildCheckRow(boss);
      PushCheck(checkOutput, pendingSoFar, boss, row);
      checkOutput := checkOutput + [row];
      i := i + 1;
    }
    assert bosses[..i] == bosses;
    checkOutput := checkOutput + [TableEnd];
    killedOutput := killedOutput + [TableEnd];
    var output := [
      if includeKilledOutput then Join(killedOutput, "") else "",
      if includeCheckOutput then Join(checkOutput, "") else "",
      Footer(report.timestamp)];
    return Success(Join(output, ""));
  }

  // ---------------------------------------------------------------------
  // The partition

  /** The bosses of a concatenation are selected part by part. */
  lemma {:induction false} SelectAppend(a: seq<Boss>, b: seq<Boss>, killed: bool)
    ensures Select(a + b, killed) == Select(a, killed) + Select(b, killed)
    decreases |b|
  {
    if b == [] {
      assert a + b == a;
    } else {
      var last := b[|b| - 1];
      assert (a + b)[..|a + b| - 1] == a + b[..|b| - 1];
      SelectAppend(a, b[..|b| - 1], killed);
    }
  }

  /**
   * `Select` splits the bosses into the killed and the pending ones: each
   * boss lands in exactly one of them, with the right flag.
   */
  lemma {:induction false} SelectPartition(bosses: seq<Boss>)
    ensures |Select(bosses, true)| + |Select(bosses, false)| == |bosses|
    ensures multiset(Select(bosses, true)) + multiset(Select(bosses, false)) == multiset(bosses)
    ensures forall b :: b in Select(bosses, true) ==> b.killed
    ensures forall b :: b in Select(bosses, false) ==> !b.killed
  {
    if bosses != [] {
      var init := bosses[..|bosses| - 1];
      SelectPartition(init);
      assert bosses == init + [bosses[|bosses| - 1]];
    }
  }

  /** A boss is selected exactly when it is among the bosses with that flag. */
  lemma {:induction false} SelectMember(bosses: seq<Boss>, killed: bool, b: Boss)
    ensures b in Select(bosses, killed) <==> b in bosses && b.killed == killed
  {
    if bosses != [] {
      var init := bosses[..|bosses| - 1];
      SelectMember(init, killed, b);
      assert bosses == init + [bosses[|bosses| - 1]];
    }
  }

  /** A pending boss without a chance in a prefix is one of the whole list too. */
  lemma MissingChanceStaysMissing(bosses: seq<Boss>, n: nat)
    requires n <= |bosses| && !ChancesKnown(Select(bosses[..n], false))
    ensures !ChancesKnown(Select(bosses, false))
  {
    var j :| 0 <= j < |Select(bosses[..n], false)| && Select(bosses[..n], false)[j].chance.None?;
    assert bosses == bosses[..n] + bosses[n..];
    SelectAppend(bosses[..n], bosses[n..], false);
    assert Select(bosses, false)[j] == Select(bosses[..n], false)[j];
  }

  // ---------------------------------------------------------------------
  // Properties of the page

  /** `render` throws exactly when some boss that is not killed has no chance. */
  lemma PageFails(report: Report)
    ensures Page(report).Failure? <==>
      exists i :: 0 <= i < |report.bosses| && !report.bosses[i].killed && report.bosses[i].chance.None?
  {
    var bosses, pending := report.bosses, Select(report.bosses, false);
    if !ChancesKnown(pending) {
      var j :| 0 <= j < |pending| && pending[j].chance.None?;
      SelectMember(bosses, false, pending[j]);
      var i :| 0 <= i < |bosses| && bosses[i] == pending[j];
    }
    if i :| 0 <= i < |bosses| && !bosses[i].killed && bosses[i].chance.None? {
      SelectMember(bosses, false, bosses[i]);
      var j :| 0 <= j < |pending| && pending[j] == bosses[i];
    }
  }

  /** Every boss contributes exactly one row, to the section of its kind. */
  lemma OneRowPerBoss(report: Report)
    requires Page(report).Success?
    ensures var killed, pending := Select(report.bosses, true), Select(report.bosses, false);
      |KilledRows(killed)| + |CheckRows(pending)| == |report.bosses| &&
      (forall j :: 0 <= j < |killed| ==> killed[j].killed && KilledRows(killed)[j] == KilledRow(killed[j])) &&
      (forall j :: 0 <= j < |pending| ==> !pending[j].killed && CheckRows(pending)[j] == CheckRow(pending[j]))
  {
    SelectPartition(report.bosses);
  }

  lemma {:induction false} SelectAll(bosses: seq<Boss>, killed: bool)
    requires forall i :: 0 <= i < |bosses| ==> bosses[i].killed == killed
    ensures Select(bosses, killed) == bosses
  {
    if bosses != [] {
      SelectAll(bosses[..|bosses| - 1], killed);
    }
  }

  lemma {:induction false} SelectNone(bosses: seq<Boss>, killed: bool)
    requires forall i :: 0 <= i < |bosses| ==> bosses[i].killed != killed
    ensures Select(bosses, killed) == []
  {
    if bosses != [] {
      SelectNone(bosses[..|bosses| - 1], killed);
    }
  }

  /** Selecting again from the bosses grouped by kind gives the same two groups. */
  lemma SelectGrouped(bosses: seq<Boss>)
    ensures var killed, pending := Select(bosses, true), Select(bosses, false);
      Select(killed + pending, true) == killed && Select(killed + pending, false) == pending
  {
    var killed, pending := Select(bosses, true), Select(bosses, false);
    SelectPartition(bosses);
    SelectAppend(killed, pending, true);
    SelectAppend(killed, pending, false);
    SelectAll(killed, true);
    SelectAll(pending, false);
    SelectNone(killed, false);
    SelectNone(pending, true);
  }

  /** Only the two selections matter: grouping the bosses by kind renders the same page. */
  lemma PageOfPartition(report: Report)
    ensures var bosses := report.bosses;
      Page(report) == Page(Report(Select(bosses, true) + Select(bosses, false), report.timestamp))
  {
    SelectGrouped(report.bosses);
  }

  /** A joined buffer is its heading, its rows and the table end. */
  lemma SectionShape(head: string, rows: seq<string>)
    ensures Section(head, rows) == head + (Join(rows, "") + TableEnd)
    ensures StartsWith(Section(head, rows), head) && EndsWith(Section(head, rows), TableEnd)
  {
    JoinPush([head] + rows, TableEnd);
    JoinFirst(head, rows);
    AppendAssoc(head, Join(rows, ""), TableEnd);
    StartsWithAppend(head, Join(rows, "") + TableEnd);
    EndsWithAppend(head + Join(rows, ""), TableEnd);
  }

  /** `output.join('')` of the three parts. */
  lemma JoinThree(a: string, b: string, c: string)
    ensures Join([a, b, c], "") == a + (b + c)
  {
    assert [a, b, c][1..] == [b, c];
    assert [b, c][1..] == [c];
    assert Join([b, c], "") == b + "" + c;
    assert b + "" + c == b + c;
    assert Join([a, b, c], "") == a + "" + (b + c);
  }

  /** The killed section, the check section and the paragraph, in this order. */
  lemma LayoutParts(killedRows: seq<string>, checkRows: seq<string>, timestamp: string)
    ensures Layout(killedRows, checkRows, timestamp) ==
      (if killedRows == [] then "" else Section(KilledHead, killedRows)) +
      ((if checkRows == [] then "" else Section(CheckHead, checkRows)) + Footer(timestamp))
  {
    JoinThree(
      if killedRows == [] then "" else Section(KilledHead, killedRows),
      if checkRows == [] then "" else Section(CheckHead, checkRows),
      Footer(timestamp));
  }

  lemma LayoutEndsWithFooter(killedRows: seq<string>, checkRows: seq<string>, timestamp: string)
    ensures EndsWith(Layout(killedRows, checkRows, timestamp), Footer(timestamp))
  {
    LayoutParts(killedRows, checkRows, timestamp);
    var cs := if checkRows == [] then "" else Section(CheckHead, checkRows);
    EndsWithAppend(cs, Footer(timestamp));
    EndsWithExtend(if killedRows == [] then "" else Section(KilledHead, killedRows), cs + Footer(timestamp), Footer(timestamp));
  }

  lemma LayoutStartsKilled(killedRows: seq<string>, checkRows: seq<string>, timestamp: string)
    requires killedRows != []
    ensures StartsWith(Layout(killedRows, checkRows, timestamp), KilledHead)
  {
    LayoutParts(killedRows, checkRows, timestamp);
    SectionShape(KilledHead, killedRows);
    var rest := (if checkRows == [] then "" else Section(CheckHead, checkRows)) + Footer(timestamp);
    StartsWithExtend(Section(KilledHead, killedRows), rest, KilledHead);
  }

  lemma LayoutStartsCheck(killedRows: seq<string>, checkRows: seq<string>, timestamp: string)
    requires killedRows == [] && checkRows != []
    ensures StartsWith(Layout(killedRows, checkRows, timestamp), CheckHead)
  {
    var cs, footer := Section(CheckHead, checkRows), Footer(timestamp);
    assert Layout(killedRows, checkRows, timestamp) == cs + footer by {
      LayoutParts(killedRows, checkRows, timestamp);
      assert "" + (cs + footer) == cs + footer;
    }
    SectionShape(CheckHead, checkRows);
    StartsWithExtend(cs, footer, CheckHead);
  }

  /** Only killed rows: the killed section and the paragraph, and no check section. */
  lemma LayoutOnlyKilled(killedRows: seq<string>, checkRows: seq<string>, timestamp: string)
    requires killedRows != [] && checkRows == []
    ensures Layout(killedRows, checkRows, timestamp) == Section(KilledHead, killedRows) + Footer(timestamp)
  {
    var footer := Footer(timestamp);
    LayoutParts(killedRows, checkRows, timestamp);
    assert "" + footer == footer;
  }

  /** Only check rows: the check section and the paragraph, and no killed section. */
  lemma LayoutOnlyCheck(killedRows: seq<string>, checkRows: seq<string>, timestamp: string)
    requires killedRows == [] && checkRows != []
    ensures Layout(killedRows, checkRows, timestamp) == Section(CheckHead, checkRows) + Footer(timestamp)
  {
    var cs, footer := Section(CheckHead, checkRows), Footer(timestamp);
    LayoutParts(killedRows, checkRows, timestamp);
    assert "" + (cs + footer) == cs + footer;
  }

  lemma LayoutKilledBeforeCheck(killedRows: seq<string>, checkRows: seq<string>, timestamp: string)
    requires killedRows != [] && checkRows != []
    ensures var p, n := Layout(killedRows, checkRows, timestamp), |Section(KilledHead, killedRows)|;
      n <= |p| && p[..n] == Section(KilledHead, killedRows) &&
      EndsWith(p[..n], TableEnd) && StartsWith(p[n..], CheckHead)
  {
    LayoutParts(killedRows, checkRows, timestamp);
    SectionShape(KilledHead, killedRows);
    SectionShape(CheckHead, checkRows);
    var ks, rest := Section(KilledHead, killedRows), Section(CheckHead, checkRows) + Footer(timestamp);
    StartsWithExtend(Section(CheckHead, checkRows), Footer(timestamp), CheckHead);
    assert (ks + rest)[..|ks|] == ks && (ks + rest)[|ks|..] == rest;
  }

  lemma LayoutOfNoRows(timestamp: string)
    ensures Layout([], [], timestamp) == Footer(timestamp)
  {
    LayoutParts([], [], timestamp);
  }

  // The same facts about the page, in terms of the bosses.

  lemma PageEndsWithFooter(report: Report)
    requires Page(report).Success?
    ensures EndsWith(Page(report).value, Footer(report.timestamp))
  {
    LayoutEndsWithFooter(KilledRows(Select(report.bosses, true)), CheckRows(Select(report.bosses, false)), report.timestamp);
  }

  /** With no bosses the page is only the "Last updated" paragraph. */
  lemma PageOfNoBosses(timestamp: string)
    ensures Page(Report([], timestamp)) == Success(Footer(timestamp))
  {
    LayoutOfNoRows(timestamp);
    assert KilledRows([]) == [] && CheckRows([]) == [];
  }

  /** The page starts with the killed section when some boss was killed. */
  lemma PageStartsKilled(report: Report)
    requires Page(report).Success?
    requires exists i :: 0 <= i < |report.bosses| && report.bosses[i].killed
    ensures StartsWith(Page(report).value, KilledHead)
  {
    var killed := Select(report.bosses, true);
    var i :| 0 <= i < |report.bosses| && report.bosses[i].killed;
    SelectMember(report.bosses, true, report.bosses[i]);
    assert |KilledRows(killed)| > 0;
    LayoutStartsKilled(KilledRows(killed), CheckRows(Select(report.bosses, false)), report.timestamp);
  }

  /** The page starts with the check section when there are bosses and none was killed. */
  lemma PageStartsCheck(report: Report)
    requires Page(report).Success?
    requires report.bosses != [] && forall i :: 0 <= i < |report.bosses| ==> !report.bosses[i].killed
    ensures StartsWith(Page(report).value, CheckHead)
  {
    var pending := Select(report.bosses, false);
    SelectNone(report.bosses, true);
    SelectAll(report.bosses, false);
    assert |CheckRows(pending)| > 0;
    LayoutStartsCheck(KilledRows(Select(report.bosses, true)), CheckRows(pending), report.timestamp);
  }

  /** When every boss was killed, the page is the killed section and the paragraph: no check table. */
  lemma AllKilled(report: Report)
    requires report.bosses != [] && forall i :: 0 <= i < |report.bosses| ==> report.bosses[i].killed
    ensures Page(report) == Success(Section(KilledHead, KilledRows(report.bosses)) + Footer(report.timestamp))
  {
    var bosses := report.bosses;
    SelectAll(bosses, true);
    SelectNone(bosses, false);
    var pending := Select(bosses, false);
    assert ChancesKnown(pending) && CheckRows(pending) == [];
    assert |KilledRows(bosses)| > 0;
    LayoutOnlyKilled(KilledRows(bosses), CheckRows(pending), report.timestamp);
  }

  /**
   * When no boss was killed, the page is the check section and the
   * paragraph, with no killed table, or the error of a missing chance.
   */
  lemma AllPending(report: Report)
    requires report.bosses != [] && forall i :: 0 <= i < |report.bosses| ==> !report.bosses[i].killed
    ensures Page(report) ==
      if ChancesKnown(report.bosses)
      then Success(Section(CheckHead, CheckRows(report.bosses)) + Footer(report.timestamp))
      else Failure(ChanceMissing)
  {
    var bosses := report.bosses;
    SelectNone(bosses, true);
    SelectAll(bosses, false);
    var killed := Select(bosses, true);
    assert KilledRows(killed) == [];
    if ChancesKnown(bosses) {
      assert |CheckRows(bosses)| > 0;
      LayoutOnlyCheck(KilledRows(killed), CheckRows(bosses), report.timestamp);
    }
  }

  /** When both sections are there, the killed section ends where the check section starts. */
  lemma KilledBeforeCheck(report: Report)
    requires Page(report).Success?
    requires Select(report.bosses, true) != [] && Select(report.bosses, false) != []
    ensures var p, n := Page(report).value, |Section(KilledHead, KilledRows(Select(report.bosses, true)))|;
      n <= |p| && p[..n] == Section(KilledHead, KilledRows(Select(report.bosses, true))) &&
      EndsWith(p[..n], TableEnd) && StartsWith(p[n..], CheckHead)
  {
    var killed, pending := Select(report.bosses, true), Select(report.bosses, false);
    assert |KilledRows(killed)| > 0 && |CheckRows(pending)| > 0;
    LayoutKilledBeforeCheck(KilledRows(killed), CheckRows(pending), report.timestamp);
  }

  // ---------------------------------------------------------------------
  // Markup safety

  /**
   * A row cannot leave its markup: the slugs in the two attributes hold no
   * `"` and no `<`, and the escaped nice name holds none of `<`, `>`, `"`, `'`.
   */
  lemma AnchorIsSafe(boss: Boss)
    ensures '"' !in Slug.WikiSlug(boss.name) && '"' !in Slug.ImageSlug(Slug.WikiSlug(boss.name))
    ensures '<' !in Slug.WikiSlug(boss.name) && '<' !in Slug.ImageSlug(Slug.WikiSlug(boss.name))
    ensures Html.IsInert(Html.Escape(Slug.NiceName(boss.name)))
  {
    Slug.WikiSlugLacks(boss.name, '"');
    Slug.ImageSlugLacks(boss.name, '"');
    Slug.WikiSlugLacks(boss.name, '<');
    Slug.ImageSlugLacks(boss.name, '<');
    Html.EscapeIsInert(Slug.NiceName(boss.name));
  }
}
