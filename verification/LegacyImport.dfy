/**
 * The row decisions of the legacy import (scripts/blog-legacy-import.ts, planLegacyImportRows).
 * Parsing a line, converting a body and resolving a section are oracles; the wording of a
 * refusal is reduced to the fact it states.
 */
module LegacyImport {
  import opened Common

  datatype Record = Record(legacyId: string, slug: string, categories: seq<string>, bodyHtml: string,
      featuredImageSrc: Option<string>)

  datatype Line = Blank | NotJson | Rejected(legacyId: string, errors: seq<string>) | Parsed(record: Record)

  datatype Rejection = Rejection(reason: string, detail: Option<string>)

  datatype Body = Body(ok: bool, rejections: seq<Rejection>)

  datatype Section = Resolved(slug: string) | Ambiguous(sections: seq<string>) | Unresolved

  /** The maps a run was given; a map that was not passed is None where the code tells the difference. */
  datatype Input = Input(
    lines: seq<Line>,
    mediaMap: map<string, string>, resolvesImages: bool,
    termMap: map<string, string>,
    sectionMap: Option<map<string, string>>,
    convert: (string, Option<map<string, string>>) -> Body,
    resolveSection: (seq<string>, map<string, string>) -> Section)

  datatype Why =
    | InvalidJson | InvalidRecord(errors: seq<string>)
    | DuplicateId | DuplicateSlug(claimedBy: nat)
    | UnmappedCategories(names: seq<string>) | NoSingleSection(found: Section)
    | BodyRejected(rejections: seq<Rejection>) | LeadNotMapped(src: string)

  datatype Refusal = Refusal(line: nat, legacyId: string, why: Why)

  datatype ImageRefs = ImageRefs(body: seq<string>, featured: Option<string>)

  datatype Plan = Plan(
    accepted: seq<Record>,
    bodies: map<string, Body>, leads: map<string, Option<string>>, sections: map<string, Option<string>>,
    refusals: seq<Refusal>,
    imageRefs: seq<ImageRefs>, categories: seq<seq<string>>)

  // ------------------------------------------ what the two in-file gates mean

  /** The first line of the file with its legacy id. */
  predicate IdFirst(lines: seq<Line>, i: nat)
    requires i < |lines|
  {
    lines[i].Parsed? && forall j :: 0 <= j < i && lines[j].Parsed? ==>
      lines[j].record.legacyId != lines[i].record.legacyId
  }

  /** The first of the first `n` lines that brought a slug in. */
  function Claimant(lines: seq<Line>, slug: string, n: nat): Option<nat>
    requires n <= |lines|
  {
    if n == 0 then None
    else if Claimant(lines, slug, n - 1).Some? then Claimant(lines, slug, n - 1)
    else if IdFirst(lines, n - 1) && lines[n - 1].record.slug == slug then Some(n - 1) else None
  }

  /** A row counted in the work lists: neither its id nor its slug came earlier. */
  predicate Counted(lines: seq<Line>, i: nat)
    requires i < |lines|
  {
    IdFirst(lines, i) && Claimant(lines, lines[i].record.slug, i).None?
  }

  // ------------------------------------------------------- what each row needs

  function BodyOf(input: Input, r: Record): Body {
    input.convert(r.bodyHtml, if input.resolvesImages then Some(input.mediaMap) else None)
  }

  predicate HasLead(r: Record) {
    r.featuredImageSrc.Some? && r.featuredImageSrc.value != ""
  }

  function LeadOf(input: Input, r: Record): Option<string> {
    if HasLead(r) && r.featuredImageSrc.value in input.mediaMap
    then Some(input.mediaMap[r.featuredImageSrc.value]) else None
  }

  function SectionOf(input: Input, r: Record): Section {
    if input.sectionMap.None? then Unresolved else input.resolveSection(r.categories, input.sectionMap.value)
  }

  function Unmapped(termMap: map<string, string>, names: seq<string>): seq<string> {
    if names == [] then [] else
      Unmapped(termMap, names[..|names| - 1]) + if names[|names| - 1] in termMap then [] else [names[|names| - 1]]
  }

  function UnmanagedImages(rejections: seq<Rejection>): seq<string> {
    if rejections == [] then [] else
      var last := rejections[|rejections| - 1];
      UnmanagedImages(rejections[..|rejections| - 1]) +
        if last.reason == "unmanaged_image" then [if last.detail.Some? then last.detail.value else ""] else []
  }

  function ImageRefsOf(input: Input, r: Record): ImageRefs {
    ImageRefs(UnmanagedImages(BodyOf(input, r).rejections), if LeadOf(input, r).None? then r.featuredImageSrc else None)
  }

  datatype Verdict = Skip | Refuse(legacyId: string, why: Why) | Accept

  /** The first gate a line fails, in the order the gates stand. */
  function Judge(input: Input, i: nat): Verdict
    requires i < |input.lines|
  {
    match input.lines[i]
    case Blank => Skip
    case NotJson => Refuse("(unparseable)", InvalidJson)
    case Rejected(id, errors) => Refuse(id, InvalidRecord(errors))
    case Parsed(r) =>
      if !IdFirst(input.lines, i) then Refuse(r.legacyId, DuplicateId)
      else if !Counted(input.lines, i)
        then Refuse(r.legacyId, DuplicateSlug(Claimant(input.lines, r.slug, i).value + 1))
      else if Unmapped(input.termMap, r.categories) != []
        then Refuse(r.legacyId, UnmappedCategories(Unmapped(input.termMap, r.categories)))
      else if input.sectionMap.Some? && !SectionOf(input, r).Resolved?
        then Refuse(r.legacyId, NoSingleSection(SectionOf(input, r)))
      else if !BodyOf(input, r).ok then Refuse(r.legacyId, BodyRejected(BodyOf(input, r).rejections))
      else if HasLead(r) && LeadOf(input, r).None? then Refuse(r.legacyId, LeadNotMapped(r.featuredImageSrc.value))
      else Accept
  }

  // -------------------------------------------------- the plan, list by list

  function Accepted(input: Input, n: nat): seq<Record>
    requires n <= |input.lines|
  {
    if n == 0 then [] else
    Accepted(input, n - 1) + if Judge(input, n - 1).Accept? then [input.lines[n - 1].record] else []
  }

  function Refusals(input: Input, n: nat): seq<Refusal>
    requires n <= |input.lines|
  {
    if n == 0 then [] else
      Refusals(input, n - 1) + match Judge(input, n - 1) case Refuse(id, why) => [Refusal(n, id, why)] case _ => []
  }

  function Categories(lines: seq<Line>, n: nat): seq<seq<string>>
    requires n <= |lines|
  {
    if n == 0 then [] else
    Categories(lines, n - 1) + if Counted(lines, n - 1) then [lines[n - 1].record.categories] else []
  }

  function AllImageRefs(input: Input, n: nat): seq<ImageRefs>
    requires n <= |input.lines|
  {
    if n == 0 then [] else
      AllImageRefs(input, n - 1) +
      if Counted(input.lines, n - 1) then [ImageRefsOf(input, input.lines[n - 1].record)] else []
  }

  /** The three side maps hold, for exactly the accepted ids, what that row resolved to. */
  ghost predicate SideMaps(input: Input, accepted: seq<Record>, bodies: map<string, Body>,
                           leads: map<string, Option<string>>, sections: map<string, Option<string>>) {
    && (forall id :: id in bodies ==> exists k :: 0 <= k < |accepted| && accepted[k].legacyId == id)
    && bodies.Keys == leads.Keys == sections.Keys
    && forall k :: 0 <= k < |accepted| ==>
         var r := accepted[k];
         && r.legacyId in bodies && bodies[r.legacyId] == BodyOf(input, r)
         && r.legacyId in leads && leads[r.legacyId] == LeadOf(input, r)
         && r.legacyId in sections
         && sections[r.legacyId] == match SectionOf(input, r) case Resolved(slug) => Some(slug) case _ => None
  }

  // ------------------------------------------------------------------ the loop

  method FilterUnmapped(termMap: map<string, string>, names: seq<string>) returns (unmapped: seq<string>)
    ensures unmapped == Unmapped(termMap, names)
  {
    unmapped := [];
    for i := 0 to |names|
      invariant unmapped == Unmapped(termMap, names[..i])
    {
      assert names[..i + 1][..i] == names[..i];
      if names[i] !in termMap {
        unmapped := unmapped + [names[i]];
      }
    }
    assert names[..|names|] == names;
  }

  method PlanLegacyImportRows(input: Input) returns (plan: Plan)
    ensures plan.accepted == Accepted(input, |input.lines|)
    ensures plan.refusals == Refusals(input, |input.lines|)
    ensures plan.categories == Categories(input.lines, |input.lines|)
    ensures plan.imageRefs == AllImageRefs(input, |input.lines|)
    ensures SideMaps(input, plan.accepted, plan.bodies, plan.leads, plan.sections)
  {
    var lines := input.lines;
    var accepted, refusals, imageRefs, categories := [], [], [], [];
    var bodies: map<string, Body> := map[];
    var leads: map<string, Option<string>> := map[];
    var sections: map<string, Option<string>> := map[];
    var seenLegacyIds: set<string> := {};
    var seenSlugs: map<string, nat> := map[];
    NoRows(input);
    hide SideMaps, BodyOf, LeadOf, ImageRefsOf, Unmapped, Accepted, Refusals, Categories, AllImageRefs, Claimant,
      IdFirst, IdSeen;
    for i := 0 to |lines|
      invariant forall id :: id in seenLegacyIds <==> IdSeen(lines, id, i)
      invariant forall slug :: slug in seenSlugs <==> Claimant(lines, slug, i).Some?
      invariant forall slug :: slug in seenSlugs ==> seenSlugs[slug] == Claimant(lines, slug, i).value + 1
      invariant accepted == Accepted(input, i) && refusals == Refusals(input, i)
      invariant categories == Categories(lines, i) && imageRefs == AllImageRefs(input, i)
      invariant SideMaps(input, accepted, bodies, leads, sections)
    {
      OneMoreLine(input, i);
      var lineNumber := i + 1;
      if lines[i].Blank? {
        continue;
      }
      if lines[i].NotJson? {
        refusals := refusals + [Refusal(lineNumber, "(unparseable)", InvalidJson)];
        continue;
      }
      if lines[i].Rejected? {
        refusals := refusals + [Refusal(lineNumber, lines[i].legacyId, InvalidRecord(lines[i].errors))];
        continue;
      }
      var r := lines[i].record;
      if r.legacyId in seenLegacyIds {
        refusals := refusals + [Refusal(lineNumber, r.legacyId, DuplicateId)];
        continue;
      }
      seenLegacyIds := seenLegacyIds + {r.legacyId};
      if r.slug in seenSlugs {
        refusals := refusals + [Refusal(lineNumber, r.legacyId, DuplicateSlug(seenSlugs[r.slug]))];
        continue;
      }
      seenSlugs := seenSlugs[r.slug := lineNumber];
      categories := categories + [r.categories];
      var body := BodyOf(input, r);
      var featuredMediaId := LeadOf(input, r);
      imageRefs := imageRefs + [ImageRefsOf(input, r)];
      var unmapped := FilterUnmapped(input.termMap, r.categories);
      if |unmapped| > 0 {
        refusals := refusals + [Refusal(lineNumber, r.legacyId, UnmappedCategories(unmapped))];
        continue;
      }
      var section: Option<string> := None;
      if input.sectionMap.Some? {
        var resolved := input.resolveSection(r.categories, input.sectionMap.value);
        if !resolved.Resolved? {
          refusals := refusals + [Refusal(lineNumber, r.legacyId, NoSingleSection(resolved))];
          continue;
        }
        section := Some(resolved.slug);
      }
      if !body.ok {
        refusals := refusals + [Refusal(lineNumber, r.legacyId, BodyRejected(body.rejections))];
        continue;
      }
      if HasLead(r) && featuredMediaId.None? {
        refusals := refusals + [Refusal(lineNumber, r.legacyId, LeadNotMapped(r.featuredImageSrc.value))];
        continue;
      }
      AddRow(input, i, bodies, leads, sections);
      accepted := accepted + [r];
      bodies := bodies[r.legacyId := body];
      leads := leads[r.legacyId := featuredMediaId];
      sections := sections[r.legacyId := section];
    }
    return Plan(accepted, bodies, leads, sections, refusals, imageRefs, categories);
  }

  ghost predicate IdSeen(lines: seq<Line>, id: string, n: nat)
    requires n <= |lines|
  {
    exists j :: 0 <= j < n && lines[j].Parsed? && lines[j].record.legacyId == id
  }

  lemma NoRows(input: Input)
    ensures SideMaps(input, [], map[], map[], map[])
    ensures Accepted(input, 0) == [] && Refusals(input, 0) == [] && Categories(input.lines, 0) == []
        && AllImageRefs(input, 0) == []
    ensures forall slug :: Claimant(input.lines, slug, 0).None?
    ensures forall id :: !IdSeen(input.lines, id, 0)
  {}

  /** What one more line adds to everything the loop keeps. */
  lemma OneMoreLine(input: Input, i: nat)
    requires i < |input.lines|
    ensures Accepted(input, i + 1) ==
              Accepted(input, i) + if Judge(input, i).Accept? then [input.lines[i].record] else []
    ensures Refusals(input, i + 1) ==
              Refusals(input, i) +
              match Judge(input, i) case Refuse(id, why) => [Refusal(i + 1, id, why)] case _ => []
    ensures Categories(input.lines, i + 1) ==
              Categories(input.lines, i) + if Counted(input.lines, i) then [input.lines[i].record.categories] else []
    ensures AllImageRefs(input, i + 1) ==
              AllImageRefs(input, i) +
              if Counted(input.lines, i) then [ImageRefsOf(input, input.lines[i].record)] else []
    ensures IdFirst(input.lines, i) <==>
        input.lines[i].Parsed? && !IdSeen(input.lines, input.lines[i].record.legacyId, i)
    ensures forall id :: IdSeen(input.lines, id, i + 1) <==>
              IdSeen(input.lines, id, i) || (input.lines[i].Parsed? && input.lines[i].record.legacyId == id)
    ensures forall slug :: Claimant(input.lines, slug, i + 1) ==
              if Claimant(input.lines, slug, i).Some? then Claimant(input.lines, slug, i)
              else if IdFirst(input.lines, i) && input.lines[i].record.slug == slug then Some(i) else None
  {
    hide Judge, Counted, ImageRefsOf;
  }

  lemma AddRow(input: Input, i: nat, bodies: map<string, Body>, leads: map<string, Option<string>>,
      sections: map<string, Option<string>>)
    requires i < |input.lines| && Judge(input, i).Accept?
    requires SideMaps(input, Accepted(input, i), bodies, leads, sections)
    ensures var r := input.lines[i].record;
            SideMaps(input, Accepted(input, i) + [r], bodies[r.legacyId := BodyOf(input, r)],
              leads[r.legacyId := LeadOf(input, r)],
                     sections[r.legacyId := match SectionOf(input, r) case Resolved(slug) => Some(slug) case _ => None])
  {
    var before, r := Accepted(input, i), input.lines[i].record;
    forall k | 0 <= k < |before| ensures before[k].legacyId != r.legacyId {
      AcceptedAt(input, i, before[k]);
    }
    NewIdExtends(input, before, r, bodies, leads, sections);
  }

  lemma NewIdExtends(input: Input, before: seq<Record>, r: Record, bodies: map<string, Body>,
      leads: map<string, Option<string>>, sections: map<string, Option<string>>)
    requires SideMaps(input, before, bodies, leads, sections)
    requires forall k :: 0 <= k < |before| ==> before[k].legacyId != r.legacyId
    ensures SideMaps(input, before + [r], bodies[r.legacyId := BodyOf(input, r)], leads[r.legacyId := LeadOf(input, r)],
                     sections[r.legacyId := match SectionOf(input, r) case Resolved(slug) => Some(slug) case _ => None])
  {
    hide BodyOf, LeadOf, SectionOf;
    var after, bodies' := before + [r], bodies[r.legacyId := BodyOf(input, r)];
    assert after[|before|] == r;
    forall id | id in bodies' ensures exists k :: 0 <= k < |after| && after[k].legacyId == id {
      if id != r.legacyId {
        var k :| 0 <= k < |before| && before[k].legacyId == id;
        assert after[k].legacyId == id;
      }
    }
  }

  // ------------------------------------------------- properties of the plan

  lemma {:induction false} AcceptedAt(input: Input, n: nat, r: Record)
    requires n <= |input.lines|
    ensures r in Accepted(input, n) <==> exists i :: 0 <= i < n && Judge(input, i).Accept? && input.lines[i].record == r
  {
    if n > 0 {
      AcceptedAt(input, n - 1, r);
    }
  }

  lemma {:induction false} ClaimedBefore(lines: seq<Line>, slug: string, i: nat, n: nat)
    requires i < n <= |lines| && IdFirst(lines, i) && lines[i].record.slug == slug
    ensures Claimant(lines, slug, n).Some?
  {
    if i < n - 1 {
      ClaimedBefore(lines, slug, i, n - 1);
    }
  }

  lemma {:induction false} NoClaimant(lines: seq<Line>, slug: string, n: nat)
    requires n <= |lines|
    ensures Claimant(lines, slug, n).None? <==>
              forall j :: 0 <= j < n && IdFirst(lines, j) ==> lines[j].record.slug != slug
  {
    if n > 0 { NoClaimant(lines, slug, n - 1); }
  }

  /**
   * A line is accepted exactly when it parses, brings a new id and a slug no first-time id
   * brought before it, and everything it names is mapped: nothing else can cost it its place.
   */
  lemma AcceptedExactlyWhen(input: Input, i: nat)
    requires i < |input.lines|
    ensures Judge(input, i).Accept? <==>
              && input.lines[i].Parsed?
              && var r := input.lines[i].record;
              && (forall j :: 0 <= j < i && input.lines[j].Parsed? ==> input.lines[j].record.legacyId != r.legacyId)
              && (forall j :: 0 <= j < i && IdFirst(input.lines, j) ==> input.lines[j].record.slug != r.slug)
              && (forall name :: name in r.categories ==> name in input.termMap)
              && (input.sectionMap.Some? ==> input.resolveSection(r.categories, input.sectionMap.value).Resolved?)
              && BodyOf(input, r).ok
              && (HasLead(r) ==> r.featuredImageSrc.value in input.mediaMap)
  {
    if input.lines[i].Parsed? {
      NoClaimant(input.lines, input.lines[i].record.slug, i);
      NothingUnmapped(input.termMap, input.lines[i].record.categories);
    }
  }

  /** Accepted rows differ in id and in slug, and each has everything it needs. */
  lemma {:induction false} AcceptedRowsAreImportable(input: Input, n: nat)
    requires n <= |input.lines|
    ensures forall a, b :: 0 <= a < b < |Accepted(input, n)| ==>
              Accepted(input, n)[a].legacyId != Accepted(input, n)[b].legacyId
                && Accepted(input, n)[a].slug != Accepted(input, n)[b].slug
    ensures forall r :: r in Accepted(input, n) ==>
              && (forall name :: name in r.categories ==> name in input.termMap)
              && (HasLead(r) ==> LeadOf(input, r).Some?)
              && (input.sectionMap.Some? ==> SectionOf(input, r).Resolved?)
              && BodyOf(input, r).ok
  {
    if n > 0 {
      var before := Accepted(input, n - 1);
      AcceptedRowsAreImportable(input, n - 1);
      if Judge(input, n - 1).Accept? {
        var r := input.lines[n - 1].record;
        NothingUnmapped(input.termMap, r.categories);
        forall a | 0 <= a < |before| ensures before[a].legacyId != r.legacyId && before[a].slug != r.slug {
          EarlierRowDiffers(input, n, before[a]);
        }
        assert Accepted(input, n) == before + [r];
      }
      hide Judge;
    }
  }

  lemma EarlierRowDiffers(input: Input, n: nat, b: Record)
    requires 0 < n <= |input.lines| && Judge(input, n - 1).Accept? && b in Accepted(input, n - 1)
    ensures b.legacyId != input.lines[n - 1].record.legacyId && b.slug != input.lines[n - 1].record.slug
  {
    var r := input.lines[n - 1].record;
    AcceptedAt(input, n - 1, b);
    var i :| 0 <= i < n - 1 && Judge(input, i).Accept? && input.lines[i].record == b;
    if b.slug == r.slug { ClaimedBefore(input.lines, r.slug, i, n - 1); }
  }

  lemma {:induction false} NothingUnmapped(termMap: map<string, string>, names: seq<string>)
    ensures Unmapped(termMap, names) == [] <==> forall name :: name in names ==> name in termMap
  {
    if names != [] {
      var rest, last := names[..|names| - 1], names[|names| - 1];
      NothingUnmapped(termMap, rest);
      assert forall name :: name in names <==> name in rest || name == last;
    }
  }

  function NonBlank(lines: seq<Line>, n: nat): nat
    requires n <= |lines|
  {
    if n == 0 then 0 else NonBlank(lines, n - 1) + if lines[n - 1].Blank? then 0 else 1
  }

  /** Every line with text is accepted once or refused once ... */
  lemma {:induction false} NothingIsLost(input: Input, n: nat)
    requires n <= |input.lines|
    ensures |Accepted(input, n)| + |Refusals(input, n)| == NonBlank(input.lines, n)
  {
    if n > 0 {
      assert Judge(input, n - 1).Skip? <==> input.lines[n - 1].Blank?;
      hide Judge;
      NothingIsLost(input, n - 1);
    }
  }

  /** ... and a refused one exactly once, in file order, under its own line number and for its own reason. */
  lemma {:induction false} RefusedOnce(input: Input, n: nat)
    requires n <= |input.lines|
    ensures forall a, b :: 0 <= a < b < |Refusals(input, n)| ==> Refusals(input, n)[a].line < Refusals(input, n)[b].line
    ensures forall a :: 0 <= a < |Refusals(input, n)| ==>
              0 < Refusals(input, n)[a].line <= n &&
              Judge(input, Refusals(input, n)[a].line - 1) ==
                Refuse(Refusals(input, n)[a].legacyId, Refusals(input, n)[a].why)
  {
    hide Judge;
    if n > 0 {
      RefusedOnce(input, n - 1);
    }
  }

  /** The work lists are the archive's: no term or section map changes them. */
  lemma {:induction false} WorkListsIgnoreTermsAndSections(a: Input, b: Input, n: nat)
    requires n <= |a.lines|
    requires b == a.(termMap := b.termMap, sectionMap := b.sectionMap, resolveSection := b.resolveSection)
    ensures Categories(a.lines, n) == Categories(b.lines, n) && AllImageRefs(a, n) == AllImageRefs(b, n)
  {
    if n > 0 {
      WorkListsIgnoreTermsAndSections(a, b, n - 1);
    }
  }

  /** Mapping more categories never costs a row: what was accepted stays accepted. */
  lemma {:induction false} MoreTermsAcceptMore(a: Input, b: Input, n: nat)
    requires n <= |a.lines| && b == a.(termMap := b.termMap) && a.termMap.Keys <= b.termMap.Keys
    ensures forall i :: 0 <= i < n && Judge(a, i).Accept? ==> Judge(b, i).Accept?
    ensures forall r :: r in Accepted(a, n) ==> r in Accepted(b, n)
  {
    if n > 0 {
      hide Judge;
      MoreTermsAcceptMore(a, b, n - 1);
      MoreTermsAcceptLine(a, b, n - 1);
    }
  }

  lemma MoreTermsAcceptLine(a: Input, b: Input, i: nat)
    requires i < |a.lines| && b == a.(termMap := b.termMap) && a.termMap.Keys <= b.termMap.Keys
    ensures Judge(a, i).Accept? ==> Judge(b, i).Accept?
  {
    if Judge(a, i).Accept? {
      hide IdFirst, Counted, Claimant;
      NothingUnmapped(a.termMap, a.lines[i].record.categories);
      NothingUnmapped(b.termMap, a.lines[i].record.categories);
    }
  }

  /** The rows it adds are among those whose categories were the only obstacle. */
  lemma AddedRowsWereUnmapped(a: Input, b: Input, i: nat)
    requires i < |a.lines| && b == a.(termMap := b.termMap) && Judge(b, i).Accept? && !Judge(a, i).Accept?
    ensures Judge(a, i) == Refuse(a.lines[i].record.legacyId,
        UnmappedCategories(Unmapped(a.termMap, a.lines[i].record.categories)))
    ensures exists name :: name in a.lines[i].record.categories && name !in a.termMap
  {
    NothingUnmapped(a.termMap, a.lines[i].record.categories);
  }

  // --------------------------------------------- the plan, said of the lines

  ghost function AcceptedSet(input: Input, n: nat): set<int>
    requires n <= |input.lines|
  {
    set i | 0 <= i < n && Judge(input, i).Accept?
  }

  /** The accepted rows are those of the accepted lines, in file order. */
  lemma {:induction false} AcceptedLines(input: Input, n: nat) returns (at: seq<int>)
    requires n <= |input.lines|
    ensures InOrder(at, AcceptedSet(input, n))
    ensures |at| == |Accepted(input, n)|
    ensures forall a :: 0 <= a < |at| ==> 0 <= at[a] < |input.lines| && input.lines[at[a]].Parsed?
                                          && Accepted(input, n)[a] == input.lines[at[a]].record
  {
    at := [];
    if n > 0 {
      at := AcceptedLines(input, n - 1);
      OneMoreInOrder(at, AcceptedSet(input, n - 1), n - 1);
      assert AcceptedSet(input, n) == AcceptedSet(input, n - 1) + if Judge(input, n - 1).Accept? then {n - 1} else {};
      hide InOrder, AcceptedSet;
      if Judge(input, n - 1).Accept? { at := at + [n - 1]; }
    }
  }

  /**
   * What an accepted row comes with: the media id the map has for its lead photo, or none
   * without a lead; the converter's body, with the images resolved if they are to be; and the
   * slug the resolver gives its section, or none without a section map.
   */
  lemma AcceptedRowHas(input: Input, n: nat, bodies: map<string, Body>, leads: map<string, Option<string>>,
      sections: map<string, Option<string>>, r: Record)
    requires n <= |input.lines| && SideMaps(input, Accepted(input, n), bodies, leads, sections)
        && r in Accepted(input, n)
    ensures r.legacyId in leads && r.legacyId in bodies && r.legacyId in sections
    ensures match r.featuredImageSrc
            case None => leads[r.legacyId] == None
            case Some(src) =>
              if src == "" then leads[r.legacyId] == None
              else src in input.mediaMap && leads[r.legacyId] == Some(input.mediaMap[src])
    ensures bodies[r.legacyId] == input.convert(r.bodyHtml, if input.resolvesImages then Some(input.mediaMap) else None)
    ensures match input.sectionMap
            case None => sections[r.legacyId] == None
            case Some(m) => exists slug ::
              input.resolveSection(r.categories, m) == Resolved(slug) && sections[r.legacyId] == Some(slug)
  {
    AcceptedRowsAreImportable(input, n);
    var k :| 0 <= k < |Accepted(input, n)| && Accepted(input, n)[k] == r;
    if input.sectionMap.Some? {
      assert SectionOf(input, r) == Resolved(SectionOf(input, r).slug);
    }
  }

  /** And nobody else comes with anything. */
  lemma OnlyAcceptedRowsHave(input: Input, n: nat, bodies: map<string, Body>, leads: map<string, Option<string>>,
      sections: map<string, Option<string>>, id: string)
    requires n <= |input.lines| && SideMaps(input, Accepted(input, n), bodies, leads, sections)
    requires id in bodies || id in leads || id in sections
    ensures exists r :: r in Accepted(input, n) && r.legacyId == id
  {
    var k :| 0 <= k < |Accepted(input, n)| && Accepted(input, n)[k].legacyId == id;
    assert Accepted(input, n)[k] in Accepted(input, n);
  }

  ghost function UnmanagedSet(rejections: seq<Rejection>): set<int> {
    set i | 0 <= i < |rejections| && rejections[i].reason == "unmanaged_image"
  }

  /** The sources of the images a converter could not place, in order. */
  lemma {:induction false} UnmanagedAre(rejections: seq<Rejection>) returns (at: seq<int>)
    ensures InOrder(at, UnmanagedSet(rejections))
    ensures |at| == |UnmanagedImages(rejections)|
    ensures forall a :: 0 <= a < |at| ==>
              && 0 <= at[a] < |rejections|
              && UnmanagedImages(rejections)[a] ==
                   match rejections[at[a]].detail case Some(detail) => detail case None => ""
  {
    at := [];
    if rejections != [] {
      var n := |rejections| - 1;
      var front := rejections[..n];
      at := UnmanagedAre(front);
      OneMoreInOrder(at, UnmanagedSet(front), n);
      assert UnmanagedSet(rejections) == UnmanagedSet(front) + if rejections[n].reason == "unmanaged_image" then {n}
        else {};
      hide InOrder, UnmanagedSet;
      if rejections[n].reason == "unmanaged_image" { at := at + [n]; }
    }
  }

  /** The line parses, and neither its id nor its slug (at a first-time id) came before. */
  ghost predicate IsNew(lines: seq<Line>, i: nat)
    requires i < |lines|
  {
    && lines[i].Parsed?
    && (forall j :: 0 <= j < i && lines[j].Parsed? ==> lines[j].record.legacyId != lines[i].record.legacyId)
    && (forall j :: 0 <= j < i && IdFirst(lines, j) ==> lines[j].record.slug != lines[i].record.slug)
  }

  lemma CountedIsNew(lines: seq<Line>, i: nat)
    requires i < |lines|
    ensures Counted(lines, i) <==> IsNew(lines, i)
  {
    if lines[i].Parsed? { NoClaimant(lines, lines[i].record.slug, i); }
  }

  ghost function NewSet(lines: seq<Line>, n: nat): set<int>
    requires n <= |lines|
  {
    set i | 0 <= i < n && IsNew(lines, i)
  }

  /**
   * What the images of a row ask for: its lead exactly when the media map lacks it, and what
   * the converter could not place.
   */
  ghost predicate IsDemandOf(input: Input, r: Record, refs: ImageRefs) {
    && refs.body ==
         UnmanagedImages(input.convert(r.bodyHtml, if input.resolvesImages then Some(input.mediaMap)
           else None).rejections)
    && match r.featuredImageSrc
       case None => refs.featured == None
       case Some(src) => refs.featured == if src != "" && src in input.mediaMap then None else Some(src)
  }

  lemma ImageRefsAreDemand(input: Input, r: Record)
    ensures IsDemandOf(input, r, ImageRefsOf(input, r))
  {}

  lemma OneMoreEntry(input: Input, i: nat)
    requires i < |input.lines|
    ensures if Counted(input.lines, i) then
              && Categories(input.lines, i + 1) == Categories(input.lines, i) + [input.lines[i].record.categories]
              && AllImageRefs(input, i + 1) == AllImageRefs(input, i) + [ImageRefsOf(input, input.lines[i].record)]
            else
              && Categories(input.lines, i + 1) == Categories(input.lines, i)
              && AllImageRefs(input, i + 1) == AllImageRefs(input, i)
  {
    hide Counted, ImageRefsOf;
  }

  /** The work lists have one entry for each new row, in file order: its categories, and what its images ask for. */
  lemma {:induction false} WorkListsAre(input: Input, n: nat) returns (at: seq<int>)
    requires n <= |input.lines|
    ensures InOrder(at, NewSet(input.lines, n))
    ensures |at| == |Categories(input.lines, n)| == |AllImageRefs(input, n)|
    ensures forall a :: 0 <= a < |at| ==>
              && 0 <= at[a] < |input.lines| && input.lines[at[a]].Parsed?
              && Categories(input.lines, n)[a] == input.lines[at[a]].record.categories
              && IsDemandOf(input, input.lines[at[a]].record, AllImageRefs(input, n)[a])
  {
    at := [];
    if n > 0 {
      at := WorkListsAre(input, n - 1);
      CountedIsNew(input.lines, n - 1);
      OneMoreInOrder(at, NewSet(input.lines, n - 1), n - 1);
      assert NewSet(input.lines, n) == NewSet(input.lines, n - 1) + if IsNew(input.lines, n - 1) then {n - 1} else {};
      assert IsNew(input.lines, n - 1) ==> input.lines[n - 1].Parsed?;
      OneMoreEntry(input, n - 1);
      hide Counted, IsNew, NewSet, InOrder, IsDemandOf, ImageRefsOf, Categories, AllImageRefs;
      if Counted(input.lines, n - 1) {
        ImageRefsAreDemand(input, input.lines[n - 1].record);
        at := at + [n - 1];
      }
    }
  }

  /** Each refusal states what is wrong with its line, and the gates before that one were passed. */
  lemma RefusalSays(input: Input, i: nat)
    requires i < |input.lines| && Judge(input, i).Refuse?
    ensures var Refuse(id, why) := Judge(input, i);
      match input.lines[i]
      case Blank => false
      case NotJson => id == "(unparseable)" && why == InvalidJson
      case Rejected(legacyId, errors) => id == legacyId && why == InvalidRecord(errors)
      case Parsed(r) =>
        && id == r.legacyId
        && match why
           case DuplicateId =>
             exists j :: 0 <= j < i && input.lines[j].Parsed? && input.lines[j].record.legacyId == r.legacyId
           case DuplicateSlug(line) =>
             && IdFirst(input.lines, i) && 1 <= line <= i && IdFirst(input.lines, line - 1)
             && input.lines[line - 1].record.slug == r.slug
             && forall j :: 0 <= j < line - 1 && IdFirst(input.lines, j) ==> input.lines[j].record.slug != r.slug
           case UnmappedCategories(names) =>
             && IsNew(input.lines, i) && names == Unmapped(input.termMap, r.categories) && names != []
           case NoSingleSection(found) =>
             && IsNew(input.lines, i) && (forall name :: name in r.categories ==> name in input.termMap)
             && input.sectionMap.Some? && found == input.resolveSection(r.categories, input.sectionMap.value)
               && !found.Resolved?
           case BodyRejected(rejections) =>
             && IsNew(input.lines, i) && (forall name :: name in r.categories ==> name in input.termMap)
             && !BodyOf(input, r).ok && rejections == BodyOf(input, r).rejections
           case LeadNotMapped(src) =>
             && IsNew(input.lines, i) && (forall name :: name in r.categories ==> name in input.termMap)
               && BodyOf(input, r).ok
             && r.featuredImageSrc == Some(src) && src != "" && src !in input.mediaMap
           case _ => false
  {
    if input.lines[i].Parsed? {
      var r := input.lines[i].record;
      CountedIsNew(input.lines, i);
      NothingUnmapped(input.termMap, r.categories);
      if Claimant(input.lines, r.slug, i).Some? { ClaimantIsFirst(input.lines, r.slug, i); }
    }
  }

  lemma {:induction false} ClaimantIsFirst(lines: seq<Line>, slug: string, n: nat)
    requires n <= |lines| && Claimant(lines, slug, n).Some?
    ensures var c := Claimant(lines, slug, n).value;
            && c < n && IdFirst(lines, c) && lines[c].record.slug == slug
            && forall j :: 0 <= j < c && IdFirst(lines, j) ==> lines[j].record.slug != slug
  {
    if Claimant(lines, slug, n - 1).Some? {
      ClaimantIsFirst(lines, slug, n - 1);
    } else {
      NoClaimant(lines, slug, n - 1);
    }
  }

  ghost function UnmappedSet(termMap: map<string, string>, names: seq<string>): set<int> {
    set i | 0 <= i < |names| && names[i] !in termMap
  }

  /** The categories a refusal names are those the map lacks, in order. */
  lemma {:induction false} UnmappedAre(termMap: map<string, string>, names: seq<string>) returns (at: seq<int>)
    ensures InOrder(at, UnmappedSet(termMap, names))
    ensures |at| == |Unmapped(termMap, names)|
    ensures forall a :: 0 <= a < |at| ==> 0 <= at[a] < |names| && Unmapped(termMap, names)[a] == names[at[a]]
  {
    at := [];
    if names != [] {
      var n := |names| - 1;
      var front := names[..n];
      at := UnmappedAre(termMap, front);
      OneMoreInOrder(at, UnmappedSet(termMap, front), n);
      assert UnmappedSet(termMap, names) == UnmappedSet(termMap, front) + if names[n] in termMap then {} else {n};
      hide InOrder, UnmappedSet;
      if names[n] !in termMap { at := at + [n]; }
    }
  }
}
