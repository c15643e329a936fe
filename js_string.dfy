/**
 * The JavaScript string built-ins the script relies on, for a search
 * STRING (never a regular expression): `indexOf`, `replace`, `replaceAll`
 * and `Array.prototype.join`.
 */
module JsString {
  import opened Wrappers

  /** The second argument of `replace`/`replaceAll`. */
  datatype Replacer =
    | Pattern(text: string)   // a replacement string: its `$` patterns are expanded
    | Computed(text: string)  // a replacer function returning `text`: inserted verbatim

  predicate OccursAt(s: string, pat: string, i: int)
  {
    0 <= i && i + |pat| <= |s| && s[i..i + |pat|] == pat
  }

  predicate Occurs(s: string, pat: string)
  {
    exists i :: 0 <= i <= |s| && OccursAt(s, pat, i)
  }

  /** `p` is where `s.indexOf(pat)` finds `pat`. */
  predicate IsFirstOccurrence(s: string, pat: string, p: int)
  {
    OccursAt(s, pat, p) && forall q :: 0 <= q < p ==> !OccursAt(s, pat, q)
  }

  /**
   * ECMAScript's GetSubstitution for a search string (no capture groups):
   * `$$` gives `$`, `$&` the match, `` $` `` what precedes it, `$'` what
   * follows it; every other `$` stays literal.
   */
  function Expand(t: string, s: string, pos: nat, len: nat): (r: string)
    requires pos + len <= |s|
    ensures '$' !in t ==> r == t
    decreases |t|
  {
    if t == [] then []
    else if t[0] == '$' && |t| >= 2 && t[1] in "$&`'" then
      var piece :=
        if t[1] == '$' then "$"
        else if t[1] == '&' then s[pos..pos + len]
        else if t[1] == '`' then s[..pos]
        else s[pos + len..];
      piece + Expand(t[2..], s, pos, len)
    else
      assert '$' !in t ==> '$' !in t[1..] by {
        assert forall k :: 0 <= k < |t[1..]| ==> t[1..][k] == t[k + 1];
      }
      [t[0]] + Expand(t[1..], s, pos, len)
  }

  /** What replaces the occurrence `s[pos..pos + len]`. */
  function Replacement(r: Replacer, s: string, pos: nat, len: nat): string
    requires pos + len <= |s|
  {
    match r
    case Pattern(t) => Expand(t, s, pos, len)
    case Computed(t) => t
  }

  /** `s.indexOf(pat, from)`. */
  function IndexOf(s: string, pat: string, from: nat): (found: Option<nat>)
    ensures found.Some? ==>
      from <= found.value && OccursAt(s, pat, found.value) &&
      forall q :: from <= q < found.value ==> !OccursAt(s, pat, q)
    ensures found.None? ==> forall q :: from <= q ==> !OccursAt(s, pat, q)
    decreases |s| - from
  {
    if from + |pat| > |s| then None
    else if s[from..from + |pat|] == pat then Some(from)
    else IndexOf(s, pat, from + 1)
  }

  /**
   * The text that replaces an occurrence of a pattern of length `len` at
   * each index of `s` (only indexes where an occurrence fits are ever asked).
   */
  function ReplacementAt(r: Replacer, s: string, len: nat): nat -> string
  {
    match r
    case Pattern(t) => (pos: nat) => if pos + len <= |s| then Expand(t, s, pos, len) else []
    case Computed(t) => Verbatim(t)
  }

  function Verbatim(t: string): nat -> string
  {
    (pos: nat) => t
  }

  /**
   * The scan of `replaceAll` over `rest`, the part of the subject from index
   * `at` on: occurrences are found left to right and never overlap, and the
   * one at index `p` of the subject becomes `rep(p)`.
   */
  function ReplaceFrom(rest: string, pat: string, rep: nat -> string, at: nat): string
    requires |pat| > 0
    decreases |rest|
  {
    if |rest| < |pat| then rest
    else if rest[..|pat|] == pat then rep(at) + ReplaceFrom(rest[|pat|..], pat, rep, at + |pat|)
    else [rest[0]] + ReplaceFrom(rest[1..], pat, rep, at + 1)
  }

  /** `s.replaceAll(pat, r)`. */
  function ReplaceAll(s: string, pat: string, r: Replacer): string
    requires |pat| > 0
  {
    ReplaceFrom(s, pat, ReplacementAt(r, s, |pat|), 0)
  }

  /** `s.replace(pat, r)`: only the first occurrence is replaced. */
  function Replace(s: string, pat: string, r: Replacer): (out: string)
    ensures !Occurs(s, pat) ==> out == s
    ensures forall p :: IsFirstOccurrence(s, pat, p) ==>
      out == s[..p] + Replacement(r, s, p, |pat|) + s[p + |pat|..]
  {
    match IndexOf(s, pat, 0)
    case None => s
    case Some(p) =>
      assert forall q :: IsFirstOccurrence(s, pat, q) ==> q == p;
      s[..p] + Replacement(r, s, p, |pat|) + s[p + |pat|..]
  }

  /** `parts.join(sep)`. */
  function Join(parts: seq<string>, sep: string): string
  {
    if |parts| == 0 then []
    else if |parts| == 1 then parts[0]
    else parts[0] + sep + Join(parts[1..], sep)
  }

  /** Joining with `''` after pushing `last` appends `last` to the joined text. */
  lemma {:induction false} JoinPush(parts: seq<string>, last: string)
    ensures Join(parts + [last], "") == Join(parts, "") + last
  {
    if |parts| == 1 {
      assert Join(parts + [last], "") == parts[0] + "" + Join([last], "");
    } else if |parts| > 1 {
      assert (parts + [last])[1..] == parts[1..] + [last];
      JoinPush(parts[1..], last);
      AppendAssoc(parts[0], Join(parts[1..], ""), last);
    }
  }

  /** Joining with `''` puts the first part first. */
  lemma JoinFirst(first: string, rest: seq<string>)
    ensures Join([first] + rest, "") == first + Join(rest, "")
  {
    if rest != [] {
      assert ([first] + rest)[1..] == rest;
    }
  }

  predicate StartsWith(s: string, prefix: string)
  {
    |prefix| <= |s| && s[..|prefix|] == prefix
  }

  predicate EndsWith(s: string, suffix: string)
  {
    |suffix| <= |s| && s[|s| - |suffix|..] == suffix
  }

  lemma StartsWithAppend(a: string, b: string)
    ensures StartsWith(a + b, a)
  {
    assert (a + b)[..|a|] == a;
  }

  lemma EndsWithAppend(a: string, b: string)
    ensures EndsWith(a + b, b)
  {
    assert (a + b)[|a + b| - |b|..] == b;
  }

  lemma StartsWithExtend(a: string, b: string, prefix: string)
    requires StartsWith(a, prefix)
    ensures StartsWith(a + b, prefix)
  {
    assert (a + b)[..|prefix|] == a[..|prefix|];
  }

  lemma EndsWithExtend(a: string, b: string, suffix: string)
    requires EndsWith(b, suffix)
    ensures EndsWith(a + b, suffix)
  {
    assert (a + b)[|a + b| - |suffix|..] == b[|b| - |suffix|..];
  }

  // ---------------------------------------------------------------------
  // The scan, for any replacement texts.

  lemma OccursAtStart(s: string, pat: string)
    requires |pat| <= |s|
    ensures OccursAt(s, pat, 0) <==> s[..|pat|] == pat
  {
    assert s[0..|pat|] == s[..|pat|];
  }

  /** Dropping the first character moves every occurrence one place to the left. */
  lemma OccursAtTail(s: string, pat: string, q: nat)
    requires |s| > 0
    ensures OccursAt(s[1..], pat, q) <==> OccursAt(s, pat, q + 1)
  {
    if 0 <= q && q + |pat| <= |s| - 1 {
      assert s[1..][q..q + |pat|] == s[q + 1..q + 1 + |pat|];
    }
  }

  lemma {:induction false} ScanFindsNothing(rest: string, pat: string, rep: nat -> string, at: nat)
    requires |pat| > 0 && !Occurs(rest, pat)
    ensures ReplaceFrom(rest, pat, rep, at) == rest
    decreases |rest|
  {
    if |rest| >= |pat| {
      OccursAtStart(rest, pat);
      assert !OccursAt(rest, pat, 0);
      assert !Occurs(rest[1..], pat) by {
        forall q | 0 <= q <= |rest[1..]|
          ensures !OccursAt(rest[1..], pat, q)
        {
          OccursAtTail(rest, pat, q);
          assert !OccursAt(rest, pat, q + 1);
        }
      }
      ScanFindsNothing(rest[1..], pat, rep, at + 1);
      assert rest == [rest[0]] + rest[1..];
    }
  }


  /** `replaceAll` leaves a string without an occurrence untouched, whatever the replacement. */
  lemma ReplaceAllAbsent(s: string, pat: string, r: Replacer)
    requires |pat| > 0 && !Occurs(s, pat)
    ensures ReplaceAll(s, pat, r) == s
  {
    ScanFindsNothing(s, pat, ReplacementAt(r, s, |pat|), 0);
  }

  lemma FirstOccurrenceOfTail(s: string, pat: string, p: int)
    requires IsFirstOccurrence(s, pat, p) && p > 0
    ensures IsFirstOccurrence(s[1..], pat, p - 1)
  {
    OccursAtTail(s, pat, p - 1);
    forall q | 0 <= q < p - 1
      ensures !OccursAt(s[1..], pat, q)
    {
      OccursAtTail(s, pat, q);
    }
  }

  /** An occurrence at the front is replaced, and the scan resumes after it. */
  lemma MatchFirst(rest: string, pat: string, rep: nat -> string, at: nat)
    requires |pat| > 0 && OccursAt(rest, pat, 0)
    ensures ReplaceFrom(rest, pat, rep, at) == rep(at) + ReplaceFrom(rest[|pat|..], pat, rep, at + |pat|)
  {
    OccursAtStart(rest, pat);
  }

  lemma AppendAssoc(a: string, b: string, c: string)
    ensures a + (b + c) == (a + b) + c
  {
  }

  lemma PrefixCons(s: string, p: nat)
    requires 0 < p <= |s|
    ensures s[..p] == [s[0]] + s[1..][..p - 1]
  {
  }

  /** `pat` occurs at none of the first `p` indexes of `s`, stated one index at a time. */
  predicate NoneBefore(s: string, pat: string, p: nat)
    decreases p
  {
    p == 0 || (|s| > 0 && !OccursAt(s, pat, 0) && NoneBefore(s[1..], pat, p - 1))
  }

  lemma {:induction false} FirstOccurrenceNoneBefore(s: string, pat: string, p: nat)
    requires IsFirstOccurrence(s, pat, p)
    ensures NoneBefore(s, pat, p)
    decreases p
  {
    if p > 0 {
      FirstOccurrenceOfTail(s, pat, p);
      FirstOccurrenceNoneBefore(s[1..], pat, p - 1);
    }
  }

  /** The scan copies a prefix in which no occurrence starts. */
  lemma {:induction false} SkipPrefix(rest: string, pat: string, rep: nat -> string, at: nat, p: nat)
    requires |pat| > 0 && p <= |rest| && NoneBefore(rest, pat, p)
    ensures ReplaceFrom(rest, pat, rep, at) == rest[..p] + ReplaceFrom(rest[p..], pat, rep, at + p)
    decreases p
  {
    if p == 0 {
      assert rest[..0] + ReplaceFrom(rest[0..], pat, rep, at + 0) == ReplaceFrom(rest, pat, rep, at);
    } else {
      var tail, after := rest[1..], ReplaceFrom(rest[p..], pat, rep, at + p);
      assert tail[p - 1..] == rest[p..] && at + 1 + (p - 1) == at + p;
      SkipPrefix(tail, pat, rep, at + 1, p - 1);
      assert ReplaceFrom(tail, pat, rep, at + 1) == tail[..p - 1] + after;
      PrefixCons(rest, p);
      if |rest| < |pat| {
        assert rest[p..] == tail[p - 1..];
        assert ReplaceFrom(rest, pat, rep, at) == rest;
        assert after == rest[p..];
        assert rest[..p] + rest[p..] == rest;
      } else {
        OccursAtStart(rest, pat);
        calc {
          ReplaceFrom(rest, pat, rep, at);
          [rest[0]] + ReplaceFrom(tail, pat, rep, at + 1);
          [rest[0]] + (tail[..p - 1] + after);
          { AppendAssoc([rest[0]], tail[..p - 1], after); }
          ([rest[0]] + tail[..p - 1]) + after;
          rest[..p] + after;
        }
      }
    }
  }

  /** The scan keeps everything before the first occurrence and replaces that occurrence. */
  lemma ScanSkipsTo(rest: string, pat: string, rep: nat -> string, at: nat, p: nat)
    requires |pat| > 0 && IsFirstOccurrence(rest, pat, p)
    ensures ReplaceFrom(rest, pat, rep, at) ==
      rest[..p] + rep(at + p) + ReplaceFrom(rest[p + |pat|..], pat, rep, at + p + |pat|)
  {
    FirstOccurrenceNoneBefore(rest, pat, p);
    SkipPrefix(rest, pat, rep, at, p);
    var from := rest[p..];
    assert OccursAt(from, pat, 0) && from[|pat|..] == rest[p + |pat|..];
    MatchFirst(from, pat, rep, at + p);
  }

  // ---------------------------------------------------------------------
  // Replacement strings without `$` behave like replacer functions.

  /** The scan depends on its replacement texts only at the places where an occurrence fits. */
  lemma {:induction false} SameReplacements(rest: string, pat: string, rep1: nat -> string, rep2: nat -> string, at: nat)
    requires |pat| > 0
    requires forall p: nat :: at <= p && p + |pat| <= at + |rest| ==> rep1(p) == rep2(p)
    ensures ReplaceFrom(rest, pat, rep1, at) == ReplaceFrom(rest, pat, rep2, at)
    decreases |rest|
  {
    if |rest| >= |pat| {
      if rest[..|pat|] == pat {
        SameReplacements(rest[|pat|..], pat, rep1, rep2, at + |pat|);
      } else {
        SameReplacements(rest[1..], pat, rep1, rep2, at + 1);
      }
    }
  }

  /** A `$`-free replacement string is inserted verbatim by `replaceAll`. */
  lemma PlainPatternIsLiteral(s: string, pat: string, t: string)
    requires |pat| > 0 && '$' !in t
    ensures ReplaceAll(s, pat, Pattern(t)) == ReplaceAll(s, pat, Computed(t))
  {
    SameReplacements(s, pat, ReplacementAt(Pattern(t), s, |pat|), Verbatim(t), 0);
  }

  // ---------------------------------------------------------------------
  // replaceAll with a verbatim replacement.

  /** With a verbatim replacement the scan does not depend on where the rest starts. */
  lemma {:induction false} VerbatimAnywhere(rest: string, pat: string, t: string, at: nat)
    requires |pat| > 0
    ensures ReplaceFrom(rest, pat, Verbatim(t), at) == ReplaceFrom(rest, pat, Verbatim(t), 0)
    decreases |rest|
  {
    if |rest| >= |pat| {
      if rest[..|pat|] == pat {
        VerbatimAnywhere(rest[|pat|..], pat, t, at + |pat|);
        VerbatimAnywhere(rest[|pat|..], pat, t, |pat|);
      } else {
        VerbatimAnywhere(rest[1..], pat, t, at + 1);
        VerbatimAnywhere(rest[1..], pat, t, 1);
      }
    }
  }

  /** `replaceAll` with a verbatim replacement, one step of its scan. */
  lemma ComputedUnfold(s: string, pat: string, t: string)
    requires |pat| > 0
    ensures ReplaceAll(s, pat, Computed(t)) ==
      if |s| < |pat| then s
      else if OccursAt(s, pat, 0) then t + ReplaceAll(s[|pat|..], pat, Computed(t))
      else [s[0]] + ReplaceAll(s[1..], pat, Computed(t))
  {
    if |pat| <= |s| {
      OccursAtStart(s, pat);
      VerbatimAnywhere(s[|pat|..], pat, t, |pat|);
      VerbatimAnywhere(s[1..], pat, t, 1);
    }
  }

  /**
   * `replaceAll` is `replace` repeated: it replaces the first occurrence,
   * exactly as `replace` does, and then carries on after it.
   */
  lemma ReplaceAllIsRepeatedReplace(s: string, pat: string, t: string, p: nat)
    requires |pat| > 0 && IsFirstOccurrence(s, pat, p)
    ensures ReplaceAll(s, pat, Computed(t)) == s[..p] + t + ReplaceAll(s[p + |pat|..], pat, Computed(t))
    ensures Replace(s, pat, Computed(t)) == s[..p] + t + s[p + |pat|..]
  {
    ScanSkipsTo(s, pat, Verbatim(t), 0, p);
    VerbatimAnywhere(s[p + |pat|..], pat, t, p + |pat|);
  }

  // ---------------------------------------------------------------------
  // Same-length rewrites and single-character patterns.

  /** The occurrence of `pat` at `j` covers index `k`, where `t` puts `c`. */
  predicate PutsAt(s: string, pat: string, t: string, j: int, k: int, c: char)
  {
    j <= k < j + |t| && OccursAt(s, pat, j) && c == t[k - j]
  }

  /**
   * Every character of `out` is the character of `s` at that place, or lies
   * inside an occurrence of `pat` in `s` and is the character `t` puts there.
   */
  ghost predicate ChangedOnlyInside(s: string, out: string, pat: string, t: string)
    requires |out| == |s|
  {
    forall k :: 0 <= k < |s| ==> out[k] == s[k] || exists j :: PutsAt(s, pat, t, j, k, out[k])
  }

  lemma PutsAtShift(s: string, d: nat, pat: string, t: string, j: int, k: int, c: char)
    requires d <= |s| && PutsAt(s[d..], pat, t, j, k, c)
    ensures PutsAt(s, pat, t, j + d, k + d, c)
  {
    assert s[d..][j..j + |pat|] == s[j + d..j + d + |pat|];
  }

  lemma ShiftedPosition(s: string, d: nat, out': string, pat: string, t: string, k: nat, c: char)
    requires d <= |s| && |out'| == |s| - d && d <= k < |s| && c == out'[k - d]
    requires ChangedOnlyInside(s[d..], out', pat, t)
    ensures c == s[k] || exists j :: PutsAt(s, pat, t, j, k, c)
  {
    var k' := k - d;
    assert s[d..][k'] == s[k];
    if c != s[k] {
      var j' :| PutsAt(s[d..], pat, t, j', k', c);
      PutsAtShift(s, d, pat, t, j', k', c);
    }
  }

  lemma RewriteMatchStep(s: string, out': string, pat: string, t: string)
    requires |pat| > 0 && |t| == |pat| && OccursAt(s, pat, 0)
    requires |out'| == |s| - |pat| && ChangedOnlyInside(s[|pat|..], out', pat, t)
    ensures ChangedOnlyInside(s, t + out', pat, t)
  {
    var out := t + out';
    forall k | 0 <= k < |s|
      ensures out[k] == s[k] || exists j :: PutsAt(s, pat, t, j, k, out[k])
    {
      if k < |pat| {
        assert PutsAt(s, pat, t, 0, k, out[k]);
      } else {
        ShiftedPosition(s, |pat|, out', pat, t, k, out[k]);
      }
    }
  }

  lemma RewriteSkipStep(s: string, out': string, pat: string, t: string)
    requires |s| > 0
    requires |out'| == |s| - 1 && ChangedOnlyInside(s[1..], out', pat, t)
    ensures ChangedOnlyInside(s, [s[0]] + out', pat, t)
  {
    var out := [s[0]] + out';
    forall k | 0 < k < |s|
      ensures out[k] == s[k] || exists j :: PutsAt(s, pat, t, j, k, out[k])
    {
      ShiftedPosition(s, 1, out', pat, t, k, out[k]);
    }
  }

  /** A replacement as long as the pattern keeps the length and touches only the matched places. */
  lemma {:induction false} SameLengthRewrite(s: string, pat: string, t: string)
    requires |pat| > 0 && |t| == |pat|
    ensures |ReplaceAll(s, pat, Computed(t))| == |s|
    ensures ChangedOnlyInside(s, ReplaceAll(s, pat, Computed(t)), pat, t)
    decreases |s|
  {
    ComputedUnfold(s, pat, t);
    if |s| < |pat| {
    } else if OccursAt(s, pat, 0) {
      SameLengthRewrite(s[|pat|..], pat, t);
      RewriteMatchStep(s, ReplaceAll(s[|pat|..], pat, Computed(t)), pat, t);
    } else {
      SameLengthRewrite(s[1..], pat, t);
      RewriteSkipStep(s, ReplaceAll(s[1..], pat, Computed(t)), pat, t);
    }
  }

  /** A one-character pattern is replaced character by character. */
  lemma SingleCharUnfold(s: string, a: char, t: string)
    requires s != []
    ensures ReplaceAll(s, [a], Computed(t)) ==
      (if s[0] == a then t else [s[0]]) + ReplaceAll(s[1..], [a], Computed(t))
  {
    ComputedUnfold(s, [a], t);
    assert OccursAt(s, [a], 0) <==> s[0] == a by {
      assert s[0..1] == [s[0]];
    }
  }

  /** Replacing one character distributes over concatenation, so the order of the input is kept. */
  lemma {:induction false} SingleCharDistributes(x: string, y: string, a: char, t: string)
    ensures ReplaceAll(x + y, [a], Computed(t)) ==
      ReplaceAll(x, [a], Computed(t)) + ReplaceAll(y, [a], Computed(t))
    decreases |x|
  {
    if x == [] {
      assert x + y == y;
      ReplaceAllAbsent(x, [a], Computed(t));
    } else {
      SingleCharUnfold(x + y, a, t);
      SingleCharUnfold(x, a, t);
      assert (x + y)[1..] == x[1..] + y;
      SingleCharDistributes(x[1..], y, a, t);
    }
  }

  /** Replacing one character by another maps every position independently. */
  lemma {:induction false} SingleCharMap(s: string, a: char, b: char)
    ensures |ReplaceAll(s, [a], Computed([b]))| == |s|
    ensures forall k :: 0 <= k < |s| ==>
      ReplaceAll(s, [a], Computed([b]))[k] == if s[k] == a then b else s[k]
    decreases |s|
  {
    if s == [] {
      ReplaceAllAbsent(s, [a], Computed([b]));
    } else {
      SingleCharUnfold(s, a, [b]);
      SingleCharMap(s[1..], a, b);
    }
  }

  /** Replacing one character by nothing deletes exactly its occurrences. */
  lemma {:induction false} SingleCharRemove(s: string, a: char)
    ensures multiset(ReplaceAll(s, [a], Computed([]))) == multiset(s)[a := 0]
    decreases |s|
  {
    if s == [] {
      ReplaceAllAbsent(s, [a], Computed([]));
    } else {
      SingleCharUnfold(s, a, []);
      SingleCharRemove(s[1..], a);
      assert s == [s[0]] + s[1..];
    }
  }
}
