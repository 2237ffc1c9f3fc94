/** Pruning and merging the sections that cuobjdump extracts (libcuda/cuda_runtime_api.cc: pruneSectionList,
    mergeMatchingSections, mergeSections). */
module Sections {
  import opened Basics

  datatype Section =
    | Ptx(id: string, arch: nat, file: string)
    | Elf(id: string, arch: nat, file: string)

  type Files = map<string, string>

  /** Characters of a PTX text that hold its version, target and address size. */
  const HEADER: nat := 50

  // ---------- pruning ----------

  /** For PTXPlus a missing or too high maximum becomes 19. Zero means no maximum. */
  function EffectiveMax(forced: nat, ptxplus: bool): (m: nat) {
    if ptxplus && (forced == 0 || forced >= 20) then 19 else forced
  }

  predicate Admissible(x: Section, id: string, max: nat) {
    x.Ptx? && x.id == id && (max == 0 || x.arch <= max)
  }

  /** The capability that is kept for `id`: the highest admissible one, or zero. */
  function Highest(s: seq<Section>, id: string, max: nat): (c: nat) {
    if s == [] then 0
    else
      var before, x := Highest(s[..|s| - 1], id, max), s[|s| - 1];
      if Admissible(x, id, max) && before < x.arch then x.arch else before
  }

  function Keep(s: seq<Section>, all: seq<Section>, max: nat): (r: seq<Section>) {
    if s == [] then []
    else if s[0].arch == Highest(all, s[0].id, max) then [s[0]] + Keep(s[1..], all, max)
    else Keep(s[1..], all, max)
  }

  function Pruned(s: seq<Section>, max: nat): (r: seq<Section>) {
    Keep(s, s, max)
  }

  // ---------- merging one identifier ----------

  predicate Matches(x: Section, id: string) {
    x.Ptx? && x.id == id
  }

  /** The PTX sections of `id`, in order. */
  function PtxOf(s: seq<Section>, id: string): (r: seq<Section>) {
    if s == [] then [] else (if Matches(s[0], id) then [s[0]] else []) + PtxOf(s[1..], id)
  }

  /** All other sections, in order. */
  function Others(s: seq<Section>, id: string): (r: seq<Section>) {
    if s == [] then [] else (if Matches(s[0], id) then [] else [s[0]]) + Others(s[1..], id)
  }

  function Read(files: Files, name: string): (text: string) {
    if name in files then files[name] else ""
  }

  /** Append the previous section's text, past its header, to the file of `x`. */
  function Carry(files: Files, prev: Option<Section>, x: Section): (r: Files) {
    if prev.None? then files
    else
      var code := Read(files, prev.value.file);
      if |code| >= HEADER then files[x.file := Read(files, x.file) + code[HEADER..]] else files
  }

  function CarryAll(files: Files, prev: Option<Section>, ps: seq<Section>): (r: Files)
    decreases ps
  {
    if ps == [] then files else CarryAll(Carry(files, prev, ps[0]), Some(ps[0]), ps[1..])
  }

  function LastOf(prev: Option<Section>, ps: seq<Section>): (r: Option<Section>) {
    if ps == [] then prev else Some(ps[|ps| - 1])
  }

  /** What the loop of `mergeMatchingSections` holds at its end: the last match, the list so far, and the files. */
  function Scanned(s: seq<Section>, id: string, prev: Option<Section>, merged: seq<Section>, files: Files)
    : (r: (Option<Section>, seq<Section>, Files))
    decreases s
  {
    if s == [] then (prev, merged, files)
    else if Matches(s[0], id) then Scanned(s[1..], id, Some(s[0]), merged, Carry(files, prev, s[0]))
    else Scanned(s[1..], id, prev, merged + [s[0]], files)
  }

  lemma {:induction false} ScannedLast(s: seq<Section>, id: string, prev: Option<Section>, merged: seq<Section>,
                                       files: Files)
    ensures Scanned(s, id, prev, merged, files).0 == LastOf(prev, PtxOf(s, id))
    decreases s
  {
    if s != [] {
      if Matches(s[0], id) {
        ScannedLast(s[1..], id, Some(s[0]), merged, Carry(files, prev, s[0]));
      } else {
        ScannedLast(s[1..], id, prev, merged + [s[0]], files);
      }
    }
  }

  lemma {:induction false} ScannedList(s: seq<Section>, id: string, prev: Option<Section>, merged: seq<Section>,
                                       files: Files)
    ensures Scanned(s, id, prev, merged, files).1 == merged + Others(s, id)
    decreases s
  {
    if s != [] {
      if Matches(s[0], id) {
        ScannedList(s[1..], id, Some(s[0]), merged, Carry(files, prev, s[0]));
      } else {
        ScannedList(s[1..], id, prev, merged + [s[0]], files);
        assert merged + [s[0]] + Others(s[1..], id) == merged + ([s[0]] + Others(s[1..], id));
      }
    }
  }

  lemma {:induction false} ScannedFiles(s: seq<Section>, id: string, prev: Option<Section>, merged: seq<Section>,
                                        files: Files)
    ensures Scanned(s, id, prev, merged, files).2 == CarryAll(files, prev, PtxOf(s, id))
    decreases s
  {
    if s != [] {
      if Matches(s[0], id) {
        ScannedFiles(s[1..], id, Some(s[0]), merged, Carry(files, prev, s[0]));
      } else {
        ScannedFiles(s[1..], id, prev, merged + [s[0]], files);
        assert [] + PtxOf(s[1..], id) == PtxOf(s[1..], id);
      }
    }
  }

  function MergedList(s: seq<Section>, id: string): (r: seq<Section>)
    requires PtxOf(s, id) != []
  {
    Others(s, id) + [PtxOf(s, id)[|PtxOf(s, id)| - 1]]
  }

  // ---------- merging all identifiers ----------

  /** The identifiers of PTX sections after those already in `seen`, in order of first appearance. */
  function Ids(s: seq<Section>, seen: seq<string>): (r: seq<string>)
    decreases s
  {
    if s == [] then seen
    else if s[0].Ptx? && s[0].id !in seen then Ids(s[1..], seen + [s[0].id])
    else Ids(s[1..], seen)
  }

  ghost predicate AllPresent(s: seq<Section>, ids: seq<string>) {
    forall k :: 0 <= k < |ids| ==> PtxOf(s, ids[k]) != []
  }

  ghost predicate NoRepeats(ids: seq<string>) {
    forall j, k :: 0 <= j < k < |ids| ==> ids[j] != ids[k]
  }

  /** The list and the files after merging the identifiers one after the other. */
  ghost function MergeAll(s: seq<Section>, files: Files, ids: seq<string>): (r: (seq<Section>, Files))
    requires AllPresent(s, ids) && NoRepeats(ids)
    decreases ids
  {
    if ids == [] then (s, files)
    else
      StillPresent(s, ids);
      MergeAll(MergedList(s, ids[0]), CarryAll(files, None, PtxOf(s, ids[0])), ids[1..])
  }

  lemma {:induction false} PtxOfConcat(a: seq<Section>, b: seq<Section>, id: string)
    ensures PtxOf(a + b, id) == PtxOf(a, id) + PtxOf(b, id)
  {
    if a == [] {
      assert a + b == b;
    } else {
      var here := if Matches(a[0], id) then [a[0]] else [];
      assert (a + b)[0] == a[0] && (a + b)[1..] == a[1..] + b;
      PtxOfConcat(a[1..], b, id);
      assert here + (PtxOf(a[1..], id) + PtxOf(b, id)) == here + PtxOf(a[1..], id) + PtxOf(b, id);
    }
  }

  lemma {:induction false} PtxOfOthers(s: seq<Section>, id: string, other: string)
    ensures PtxOf(Others(s, id), other) == if id == other then [] else PtxOf(s, other)
  {
    if s != [] {
      PtxOfOthers(s[1..], id, other);
      PtxOfConcat(if Matches(s[0], id) then [] else [s[0]], Others(s[1..], id), other);
    }
  }

  lemma {:induction false} PtxOfMatch(s: seq<Section>, id: string)
    ensures forall x :: x in PtxOf(s, id) <==> x in s && Matches(x, id)
  {
    if s != [] {
      PtxOfMatch(s[1..], id);
    }
  }

  /** Merging one identifier leaves its last PTX section and does not touch the others. */
  lemma MergedPtx(s: seq<Section>, id: string, other: string)
    requires PtxOf(s, id) != []
    ensures PtxOf(MergedList(s, id), other) == if id == other then [PtxOf(s, id)[|PtxOf(s, id)| - 1]]
            else PtxOf(s, other)
  {
    var last := PtxOf(s, id)[|PtxOf(s, id)| - 1];
    PtxOfMatch(s, id);
    assert last in PtxOf(s, id);
    PtxOfConcat(Others(s, id), [last], other);
    PtxOfOthers(s, id, other);
    assert PtxOf([last][1..], other) == [];
  }

  lemma StillPresent(s: seq<Section>, ids: seq<string>)
    requires ids != [] && AllPresent(s, ids) && NoRepeats(ids)
    ensures PtxOf(s, ids[0]) != [] && AllPresent(MergedList(s, ids[0]), ids[1..]) && NoRepeats(ids[1..])
  {
    forall k | 0 <= k < |ids[1..]| ensures PtxOf(MergedList(s, ids[0]), ids[1..][k]) != [] {
      MergedPtx(s, ids[0], ids[k + 1]);
    }
  }

  // ---------- the code ----------

  class Runtime {
    var sections: seq<Section>
    var files: Files

    constructor (sections: seq<Section>, files: Files)
      ensures this.sections == sections && this.files == files
    {
      this.sections, this.files := sections, files;
    }

    /** The first loop of `pruneSectionList`: highest admissible capability per identifier. */
    method Capabilities(max: nat) returns (caps: map<string, nat>)
      ensures forall id :: (if id in caps then caps[id] else 0) == Highest(sections, id, max)
    {
      caps := map[];
      for k := 0 to |sections|
        invariant forall id :: (if id in caps then caps[id] else 0) == Highest(sections[..k], id, max)
      {
        var x := sections[k];
        assert sections[..k + 1][..k] == sections[..k];
        if x.Ptx? && (x.arch <= max || max == 0) {
          if x.id !in caps || caps[x.id] < x.arch {
            caps := caps[x.id := x.arch];
          }
        }
      }
      assert sections[..|sections|] == sections;
    }

    /** `pruneSectionList`; nothing left is the error that the code aborts on. */
    method PruneSectionList(forced: nat, ptxplus: bool) returns (r: Option<seq<Section>>)
      ensures var kept := Pruned(sections, EffectiveMax(forced, ptxplus)); r == if kept == [] then None else Some(kept)
      ensures r.None? ==> forall x :: x in sections ==> !Survives(sections, x, forced, ptxplus)
      ensures r.Some? ==> forall x :: x in r.value <==> x in sections && Survives(sections, x, forced, ptxplus)
    {
      var max := EffectiveMax(forced, ptxplus);
      var caps := Capabilities(max);
      var kept := [];
      var k := 0;
      assert sections[0..] == sections;
      while k < |sections|
        invariant k <= |sections| && kept + Keep(sections[k..], sections, max) == Pruned(sections, max)
      {
        var x := sections[k];
        assert sections[k..][1..] == sections[k + 1..];
        var cap := if x.id in caps then caps[x.id] else 0;
        if x.arch == cap {
          kept := kept + [x];
        }
        k := k + 1;
      }
      assert kept == Pruned(sections, max);
      forall x ensures x in kept <==> x in sections && Survives(sections, x, forced, ptxplus) {
        PruneExact(sections, x, forced, ptxplus);
      }
      r := if kept == [] then None else Some(kept);
    }

    /** Append the text of the previous matching section to the file of this one. */
    method AppendPrevious(prev: Option<Section>, x: Section)
      modifies this`files
      ensures files == Carry(old(files), prev, x)
    {
      if prev.Some? {
        var code := Read(files, prev.value.file);
        if |code| >= HEADER {
          files := files[x.file := Read(files, x.file) + code[HEADER..]];
        }
      }
    }

    /** `mergeMatchingSections`; it is called for identifiers that occur. */
    method MergeMatchingSections(id: string) returns (merged: seq<Section>)
      requires PtxOf(sections, id) != []
      modifies this`files
      ensures merged == MergedList(sections, id)
      ensures files == CarryAll(old(files), None, PtxOf(sections, id))
    {
      merged := [];
      var prev: Option<Section> := None;
      var k := 0;
      assert sections[0..] == sections;
      while k < |sections|
        invariant k <= |sections|
        invariant Scanned(sections[k..], id, prev, merged, files) == Scanned(sections, id, None, [], old(files))
      {
        var x := sections[k];
        assert sections[k..][1..] == sections[k + 1..];
        if x.Ptx? && x.id == id {
          AppendPrevious(prev, x);
          prev := Some(x);
        } else {
          merged := merged + [x];
        }
        k := k + 1;
      }
      ScannedLast(sections, id, None, [], old(files));
      ScannedList(sections, id, None, [], old(files));
      ScannedFiles(sections, id, None, [], old(files));
      merged := merged + [prev.value];
    }

    method PtxIds() returns (ids: seq<string>)
      ensures ids == Ids(sections, [])
    {
      ids := [];
      var k := 0;
      assert sections[0..] == sections;
      while k < |sections|
        invariant k <= |sections| && Ids(sections[k..], ids) == Ids(sections, [])
      {
        assert sections[k..][1..] == sections[k + 1..];
        if sections[k].Ptx? && sections[k].id !in ids {
          ids := ids + [sections[k].id];
        }
        k := k + 1;
      }
    }

    /** `mergeSections` */
    method MergeSections()
      modifies this
      ensures AllPresent(old(sections), Ids(old(sections), [])) && NoRepeats(Ids(old(sections), []))
      ensures (sections, files) == MergeAll(old(sections), old(files), Ids(old(sections), []))
    {
      var ids := PtxIds();
      IdsAre(sections, []);
      var k := 0;
      assert ids[0..] == ids;
      while k < |ids|
        invariant k <= |ids| && AllPresent(sections, ids[k..]) && NoRepeats(ids[k..])
        invariant MergeAll(sections, files, ids[k..]) == MergeAll(old(sections), old(files), ids)
      {
        StillPresent(sections, ids[k..]);
        assert ids[k..][1..] == ids[k + 1..];
        var merged := MergeMatchingSections(ids[k]);
        sections := merged;
        k := k + 1;
      }
    }
  }

  /** The identifiers found are those of PTX sections, each once. */
  lemma {:induction false} IdsAre(s: seq<Section>, seen: seq<string>)
    requires NoRepeats(seen)
    ensures NoRepeats(Ids(s, seen))
    ensures forall id :: id in Ids(s, seen) <==> id in seen || PtxOf(s, id) != []
    ensures seen == [] ==> AllPresent(s, Ids(s, seen))
    decreases s
  {
    if s != [] {
      var next := if s[0].Ptx? && s[0].id !in seen then seen + [s[0].id] else seen;
      IdsAre(s[1..], next);
    }
    if seen == [] {
      forall k | 0 <= k < |Ids(s, seen)| ensures PtxOf(s, Ids(s, seen)[k]) != [] {
        assert Ids(s, seen)[k] in Ids(s, seen);
      }
    }
  }

  // ---------- what is kept ----------

  /** The capability kept is the highest admissible one. */
  lemma {:induction false} HighestIs(s: seq<Section>, id: string, max: nat)
    ensures forall x :: x in s && Admissible(x, id, max) ==> x.arch <= Highest(s, id, max)
    ensures Highest(s, id, max) > 0 ==> exists x :: x in s && Admissible(x, id, max) && x.arch == Highest(s, id, max)
  {
    if s != [] {
      var front, last := s[..|s| - 1], s[|s| - 1];
      HighestIs(front, id, max);
      assert last in s && forall x :: x in s ==> x == last || x in front;
      if Highest(s, id, max) > 0 && Highest(s, id, max) == Highest(front, id, max) {
        var x :| x in front && Admissible(x, id, max) && x.arch == Highest(front, id, max);
        assert x in s;
      }
    }
  }

  lemma {:induction false} KeepIs(s: seq<Section>, all: seq<Section>, max: nat)
    ensures forall x :: x in Keep(s, all, max) <==> x in s && x.arch == Highest(all, x.id, max)
  {
    if s != [] {
      KeepIs(s[1..], all, max);
    }
  }

  /** An identifier survives pruning, as PTX, exactly when it has an admissible PTX section; every survivor has the
      highest admissible capability. */
  lemma PruneKeepsHighest(s: seq<Section>, id: string, max: nat)
    ensures PtxOf(Pruned(s, max), id) != [] <==> exists x :: x in s && Admissible(x, id, max)
    ensures forall x :: x in PtxOf(Pruned(s, max), id) ==>
              x in s && Admissible(x, id, max) && x.arch == Highest(s, id, max)
  {
    KeepIs(s, s, max);
    PtxOfMatch(Pruned(s, max), id);
    HighestIs(s, id, max);
    forall x | x in PtxOf(Pruned(s, max), id)
      ensures x in s && Admissible(x, id, max) && x.arch == Highest(s, id, max)
    {
      if Highest(s, id, max) > 0 {
        var y :| y in s && Admissible(y, id, max) && y.arch == Highest(s, id, max);
      }
    }
    if x :| x in s && Admissible(x, id, max) {
      if Highest(s, id, max) > 0 {
        var y :| y in s && Admissible(y, id, max) && y.arch == Highest(s, id, max);
        assert y in Pruned(s, max) && y in PtxOf(Pruned(s, max), id);
      } else {
        assert x in Pruned(s, max) && x in PtxOf(Pruned(s, max), id);
      }
    }
    if PtxOf(Pruned(s, max), id) != [] {
      assert PtxOf(Pruned(s, max), id)[0] in PtxOf(Pruned(s, max), id);
    }
  }

  // ---------- the configured maximum ----------

  /** A PTX section of `id` that the configuration admits: not above the forced maximum, if there is one, nor above 19
      with PTXPlus. */
  predicate Admitted(x: Section, id: string, forced: nat, ptxplus: bool) {
    x.Ptx? && x.id == id && (forced == 0 || x.arch <= forced) && (ptxplus ==> x.arch <= 19)
  }

  /** Some PTX section of the identifier is admitted. */
  ghost predicate SomeAdmitted(s: seq<Section>, id: string, forced: nat, ptxplus: bool) {
    exists y :: y in s && Admitted(y, id, forced, ptxplus)
  }

  /** The section has the highest capability among the admitted ones of its identifier; if none is admitted, it has
      capability 0. */
  ghost predicate Survives(s: seq<Section>, x: Section, forced: nat, ptxplus: bool) {
    if SomeAdmitted(s, x.id, forced, ptxplus) then
      && (exists y :: y in s && Admitted(y, x.id, forced, ptxplus) && y.arch == x.arch)
      && forall z :: z in s && Admitted(z, x.id, forced, ptxplus) ==> z.arch <= x.arch
    else x.arch == 0
  }

  lemma AdmittedIs(x: Section, id: string, forced: nat, ptxplus: bool)
    ensures Admitted(x, id, forced, ptxplus) <==> Admissible(x, id, EffectiveMax(forced, ptxplus))
  {
  }

  /** The capability that is kept, from the configuration. */
  lemma HighestAdmitted(s: seq<Section>, id: string, forced: nat, ptxplus: bool, c: nat)
    requires c == Highest(s, id, EffectiveMax(forced, ptxplus))
    ensures forall z :: z in s && Admitted(z, id, forced, ptxplus) ==> z.arch <= c
    ensures if SomeAdmitted(s, id, forced, ptxplus) then
              exists y :: y in s && Admitted(y, id, forced, ptxplus) && y.arch == c
            else c == 0
  {
    var max := EffectiveMax(forced, ptxplus);
    HighestIs(s, id, max);
    forall z ensures Admitted(z, id, forced, ptxplus) <==> Admissible(z, id, max) {
      AdmittedIs(z, id, forced, ptxplus);
    }
  }

  /** What pruning keeps of a list, for every configuration. */
  lemma PruneExact(s: seq<Section>, x: Section, forced: nat, ptxplus: bool)
    ensures x in Pruned(s, EffectiveMax(forced, ptxplus)) <==> x in s && Survives(s, x, forced, ptxplus)
  {
    var max := EffectiveMax(forced, ptxplus);
    KeepIs(s, s, max);
    HighestAdmitted(s, x.id, forced, ptxplus, Highest(s, x.id, max));
  }

  /** An identifier keeps a PTX section if and only if it has an admitted one, and all it keeps are admitted ones of the
      highest capability. */
  lemma PruneConfigured(s: seq<Section>, kept: seq<Section>, id: string, forced: nat, ptxplus: bool)
    requires forall x :: x in kept <==> x in s && Survives(s, x, forced, ptxplus)
    ensures PtxOf(kept, id) != [] <==> SomeAdmitted(s, id, forced, ptxplus)
    ensures forall x :: x in PtxOf(kept, id) ==>
              x in s && Admitted(x, id, forced, ptxplus)
              && forall z :: z in s && Admitted(z, id, forced, ptxplus) ==> z.arch <= x.arch
  {
    PtxOfMatch(kept, id);
    if SomeAdmitted(s, id, forced, ptxplus) {
      var c := Highest(s, id, EffectiveMax(forced, ptxplus));
      HighestAdmitted(s, id, forced, ptxplus, c);
      var y :| y in s && Admitted(y, id, forced, ptxplus) && y.arch == c;
      assert Survives(s, y, forced, ptxplus);
      assert y in PtxOf(kept, id);
    } else if PtxOf(kept, id) != [] {
      var x := PtxOf(kept, id)[0];
      assert x in PtxOf(kept, id);
      assert Admitted(x, id, forced, ptxplus);
    }
  }

  // ---------- what the merged file holds ----------

  function PastHeader(code: string): (text: string) {
    if |code| >= HEADER then code[HEADER..] else ""
  }

  /** The texts of `ps` past their headers, newest first. */
  function Tails(files: Files, ps: seq<Section>): (text: string) {
    if ps == [] then ""
    else
      PastHeader(Read(files, ps[|ps| - 1].file)) + Tails(files, ps[..|ps| - 1])
  }

  ghost predicate DistinctFiles(ps: seq<Section>) {
    forall j, k :: 0 <= j < k < |ps| ==> ps[j].file != ps[k].file
  }

  lemma {:induction false} CarrySnoc(files: Files, prev: Option<Section>, ps: seq<Section>, x: Section)
    ensures CarryAll(files, prev, ps + [x]) == Carry(CarryAll(files, prev, ps), LastOf(prev, ps), x)
    decreases ps
  {
    if ps == [] {
      assert ps + [x] == [x] && [x][1..] == [];
    } else {
      assert (ps + [x])[1..] == ps[1..] + [x];
      CarrySnoc(Carry(files, prev, ps[0]), Some(ps[0]), ps[1..], x);
    }
  }

  /** Merging writes only the files of the sections merged. */
  lemma {:induction false} CarryFrame(files: Files, prev: Option<Section>, ps: seq<Section>, name: string)
    requires forall k :: 0 <= k < |ps| ==> ps[k].file != name
    ensures Read(CarryAll(files, prev, ps), name) == Read(files, name)
    decreases ps
  {
    if ps != [] {
      CarryFrame(Carry(files, prev, ps[0]), Some(ps[0]), ps[1..], name);
    }
  }

  /** What the last of the sections inherits: the text of the one before it with what that inherited, past the
      header. */
  function Inherited(files: Files, ps: seq<Section>): (text: string) {
    if |ps| <= 1 then ""
    else
      var front := ps[..|ps| - 1];
      PastHeader(Read(files, front[|front| - 1].file) + Inherited(files, front))
  }

  /** After merging, the last section's file is its own text followed by what it inherits. */
  lemma {:induction false} MergedText(files: Files, ps: seq<Section>)
    requires ps != [] && DistinctFiles(ps)
    ensures Read(CarryAll(files, None, ps), ps[|ps| - 1].file) == TextAfter(files, ps)
  {
    var front, x := ps[..|ps| - 1], ps[|ps| - 1];
    assert ps == front + [x];
    if front != [] {
      MergedText(files, front);
    }
    MergedLast(files, front, x);
  }

  /** One more section, of a file of its own. */
  lemma MergedLast(files: Files, front: seq<Section>, x: Section)
    requires forall k :: 0 <= k < |front| ==> front[k].file != x.file
    requires front != [] ==> Read(CarryAll(files, None, front), front[|front| - 1].file) == TextAfter(files, front)
    ensures Read(CarryAll(files, None, front + [x]), x.file) == TextAfter(files, front + [x])
  {
    CarrySnoc(files, None, front, x);
    assert (front + [x])[..|front|] == front;
    if front != [] {
      CarryFrame(files, None, front, x.file);
    } else {
      assert Read(files, x.file) + "" == Read(files, x.file);
    }
  }

  /** No text is shorter than a header after one that is longer: of those that are carried over, all but the last. */
  ghost predicate Headed(files: Files, ps: seq<Section>) {
    forall j, k :: 0 <= j < k < |ps| - 1 && |Read(files, ps[j].file)| > HEADER ==> |Read(files, ps[k].file)| >= HEADER
  }

  /** No text before the last is longer than a header. */
  ghost predicate AllShort(files: Files, ps: seq<Section>) {
    forall j :: 0 <= j < |ps| - 1 ==> |Read(files, ps[j].file)| <= HEADER
  }

  lemma AllShortStep(files: Files, ps: seq<Section>)
    requires |ps| > 1
    ensures AllShort(files, ps) <==> AllShort(files, ps[..|ps| - 1]) && |Read(files, ps[|ps| - 2].file)| <= HEADER
  {
    var front := ps[..|ps| - 1];
    assert forall j :: 0 <= j < |front| ==> front[j] == ps[j];
  }

  lemma {:induction false} TailsOfShort(files: Files, ps: seq<Section>)
    requires ps != []
    ensures AllShort(files, ps) <==> Tails(files, ps[..|ps| - 1]) == ""
  {
    if |ps| > 1 {
      var front := ps[..|ps| - 1];
      TailsOfShort(files, front);
      AllShortStep(files, ps);
    }
  }

  lemma {:induction false} InheritedAtMost(files: Files, ps: seq<Section>)
    requires ps != []
    ensures |Inherited(files, ps)| <= |Tails(files, ps[..|ps| - 1])|
  {
    if |ps| > 1 {
      InheritedAtMost(files, ps[..|ps| - 1]);
    }
  }

  lemma HeadedFront(files: Files, ps: seq<Section>)
    requires |ps| > 1
    ensures var front := ps[..|ps| - 1];
            Headed(files, ps) <==>
            Headed(files, front) && (|Read(files, ps[|ps| - 2].file)| >= HEADER || AllShort(files, front))
  {
    var front := ps[..|ps| - 1];
    assert forall j :: 0 <= j < |front| ==> front[j] == ps[j];
    if Headed(files, ps) && |Read(files, ps[|ps| - 2].file)| < HEADER {
      forall j | 0 <= j < |front| - 1 ensures |Read(files, front[j].file)| <= HEADER {
      }
    }
  }

  lemma CutSame(own: string, x: string, y: string)
    requires |own| >= HEADER
    ensures PastHeader(own + x) == PastHeader(own) + y <==> x == y
  {
    assert PastHeader(own + x) == own[HEADER..] + x;
    if own[HEADER..] + x == own[HEADER..] + y {
      assert (own[HEADER..] + x)[|own| - HEADER..] == x && (own[HEADER..] + y)[|own| - HEADER..] == y;
    }
  }

  lemma CutShorter(own: string, x: string, y: string)
    requires |own| < HEADER && |x| <= |y|
    ensures PastHeader(own + x) == PastHeader(own) + y <==> y == ""
  {
    assert PastHeader(own) + y == y;
    assert |PastHeader(own + x)| <= |x|;
    assert |x| > 0 ==> |PastHeader(own + x)| < |x|;
  }

  /** What is inherited is the texts of the predecessors past their headers, newest first, if and only if no text
      shorter than a header comes after a longer one. */
  lemma {:induction false} InheritedExact(files: Files, ps: seq<Section>)
    requires ps != []
    ensures Inherited(files, ps) == Tails(files, ps[..|ps| - 1]) <==> Headed(files, ps)
  {
    if |ps| > 1 {
      var front := ps[..|ps| - 1];
      var own, x, y := Read(files, front[|front| - 1].file), Inherited(files, front),
          Tails(files, front[..|front| - 1]);
      assert Inherited(files, ps) == PastHeader(own + x);
      assert Tails(files, front) == PastHeader(own) + y;
      InheritedExact(files, front);
      HeadedFront(files, ps);
      if |own| >= HEADER {
        CutSame(own, x, y);
      } else {
        InheritedAtMost(files, front);
        CutShorter(own, x, y);
        TailsOfShort(files, front);
      }
    }
  }

  /** The merged text that a section should end up with. */
  ghost function FinalText(files: Files, ps: seq<Section>): (text: string)
    requires ps != []
  {
    Read(files, ps[|ps| - 1].file) + Tails(files, ps[..|ps| - 1])
  }

  /** After merging, the last section's file is its own text followed by the texts of the others past their headers,
      newest first, if and only if no text shorter than a header comes after a longer one. */
  lemma MergedFile(files: Files, ps: seq<Section>)
    requires ps != [] && DistinctFiles(ps)
    ensures Read(CarryAll(files, None, ps), ps[|ps| - 1].file) == FinalText(files, ps) <==> Headed(files, ps)
  {
    MergedText(files, ps);
    TextAfterExact(files, ps);
  }

  /** Of two sections the second ends up with its own text and that of the first from its 51st character on; the first
      keeps its own. */
  lemma TwoSections(files: Files, ps: seq<Section>)
    requires |ps| == 2 && ps[0].file != ps[1].file
    ensures var first, second := Read(files, ps[0].file), Read(files, ps[1].file);
            var files' := CarryAll(files, None, ps);
            && Read(files', ps[1].file) == second + (if |first| >= 50 then first[50..] else "")
            && Read(files', ps[0].file) == first
  {
    MergedText(files, ps);
    var one := ps[..1];
    assert one[..0] == [] && Inherited(files, one) == "";
    var own := Read(files, ps[0].file);
    assert own + "" == own;
    assert ps[1..] == [ps[1]];
    assert CarryAll(files, Some(ps[0]), ps[1..]) == Carry(files, Some(ps[0]), ps[1]);
    assert CarryAll(files, None, ps) == Carry(files, Some(ps[0]), ps[1]);
  }

  /** Three sections of which the middle one is empty: the text of the first is lost. */
  lemma ShortTextLoses(files: Files, ps: seq<Section>)
    requires |ps| == 3 && ps[0].file == "a" && ps[1].file == "b" && ps[2].file == "c"
    requires |Read(files, "a")| == HEADER + 1 && Read(files, "b") == Read(files, "c") == ""
    ensures Read(CarryAll(files, None, ps), "c") == "" != FinalText(files, ps)
  {
    MergedText(files, ps);
    var two := ps[..2];
    var one := two[..1];
    assert Inherited(files, one) == "";
    assert |Inherited(files, two)| == 1;
    assert Inherited(files, ps) == "";
    assert |Tails(files, one)| == 1;
  }

  // ---------- merging every identifier ----------

  /** PTX sections with different identifiers do not share a file. */
  ghost predicate OwnFiles(s: seq<Section>) {
    forall x, y :: x in s && y in s && x.Ptx? && y.Ptx? && x.id != y.id ==> x.file != y.file
  }

  lemma {:induction false} OthersIn(s: seq<Section>, id: string)
    ensures forall x :: x in Others(s, id) ==> x in s
  {
    if s != [] {
      OthersIn(s[1..], id);
    }
  }

  lemma MergedIn(s: seq<Section>, id: string)
    requires PtxOf(s, id) != []
    ensures forall x :: x in MergedList(s, id) ==> x in s
  {
    OthersIn(s, id);
    PtxOfMatch(s, id);
    assert PtxOf(s, id)[|PtxOf(s, id)| - 1] in PtxOf(s, id);
  }

  /** Merging `id` first changes nothing for another identifier: same sections, same texts. */
  lemma OtherIdUntouched(s: seq<Section>, files: Files, id: string, other: string)
    requires PtxOf(s, id) != [] && id != other && OwnFiles(s)
    ensures PtxOf(MergedList(s, id), other) == PtxOf(s, other)
    ensures forall x :: x in PtxOf(s, other) ==>
              Read(CarryAll(files, None, PtxOf(s, id)), x.file) == Read(files, x.file)
  {
    MergedPtx(s, id, other);
    PtxOfMatch(s, id);
    PtxOfMatch(s, other);
    forall x | x in PtxOf(s, other) ensures Read(CarryAll(files, None, PtxOf(s, id)), x.file) == Read(files, x.file) {
      forall k | 0 <= k < |PtxOf(s, id)| ensures PtxOf(s, id)[k].file != x.file {
        assert PtxOf(s, id)[k] in PtxOf(s, id);
      }
      CarryFrame(files, None, PtxOf(s, id), x.file);
    }
  }

  lemma {:induction false} InheritedSame(files: Files, files': Files, ps: seq<Section>)
    requires forall k :: 0 <= k < |ps| ==> Read(files, ps[k].file) == Read(files', ps[k].file)
    ensures Inherited(files, ps) == Inherited(files', ps)
  {
    if |ps| > 1 {
      InheritedSame(files, files', ps[..|ps| - 1]);
    }
  }

  /** What a section's file holds once its identifier has been merged: its own text and what it inherits. */
  ghost function TextAfter(files: Files, ps: seq<Section>): (text: string)
    requires ps != []
  {
    Read(files, ps[|ps| - 1].file) + Inherited(files, ps)
  }

  lemma TextAfterSame(files: Files, files': Files, ps: seq<Section>)
    requires ps != [] && forall x :: x in ps ==> Read(files, x.file) == Read(files', x.file)
    ensures TextAfter(files, ps) == TextAfter(files', ps)
  {
    forall k | 0 <= k < |ps| ensures Read(files, ps[k].file) == Read(files', ps[k].file) {
      assert ps[k] in ps;
    }
    InheritedSame(files, files', ps);
  }

  /** That is the text it should hold exactly when no short text comes after a longer one. */
  lemma TextAfterExact(files: Files, ps: seq<Section>)
    requires ps != []
    ensures TextAfter(files, ps) == FinalText(files, ps) <==> Headed(files, ps)
  {
    InheritedExact(files, ps);
    var own, x, y := Read(files, ps[|ps| - 1].file), Inherited(files, ps), Tails(files, ps[..|ps| - 1]);
    if own + x == own + y {
      assert (own + x)[|own|..] == x && (own + y)[|own|..] == y;
    }
  }

  /** An identifier that is not merged keeps its sections and texts. */
  lemma {:induction false} Unmerged(s: seq<Section>, files: Files, ids: seq<string>, id: string)
    requires AllPresent(s, ids) && NoRepeats(ids) && OwnFiles(s) && id !in ids
    ensures var (s', files') := MergeAll(s, files, ids);
            PtxOf(s', id) == PtxOf(s, id)
            && forall x :: x in PtxOf(s, id) ==> Read(files', x.file) == Read(files, x.file)
    decreases ids
  {
    if ids != [] {
      StillPresent(s, ids);
      MergedIn(s, ids[0]);
      OtherIdUntouched(s, files, ids[0], id);
      Unmerged(MergedList(s, ids[0]), CarryAll(files, None, PtxOf(s, ids[0])), ids[1..], id);
    }
  }

  /** Every merged identifier is left with exactly its last PTX section, whose file holds its own text and what it
      inherits from the earlier ones. */
  lemma {:induction false} MergeLeavesOne(s: seq<Section>, files: Files, ids: seq<string>, id: string)
    requires AllPresent(s, ids) && NoRepeats(ids) && OwnFiles(s) && id in ids && DistinctFiles(PtxOf(s, id))
    ensures PtxOf(s, id) != []
    ensures var (s', files') := MergeAll(s, files, ids);
            var ps := PtxOf(s, id);
            PtxOf(s', id) == [ps[|ps| - 1]] && Read(files', ps[|ps| - 1].file) == TextAfter(files, ps)
    decreases ids
  {
    StillPresent(s, ids);
    if ids[0] == id {
      MergedNow(s, files, ids);
    } else {
      var s1, files1 := MergedList(s, ids[0]), CarryAll(files, None, PtxOf(s, ids[0]));
      MergedIn(s, ids[0]);
      OtherIdUntouched(s, files, ids[0], id);
      MergeLeavesOne(s1, files1, ids[1..], id);
      TextAfterSame(files, files1, PtxOf(s, id));
    }
  }

  lemma MergedNow(s: seq<Section>, files: Files, ids: seq<string>)
    requires ids != [] && AllPresent(s, ids) && NoRepeats(ids) && OwnFiles(s) && DistinctFiles(PtxOf(s, ids[0]))
    ensures PtxOf(s, ids[0]) != []
    ensures var (s', files') := MergeAll(s, files, ids);
            var ps := PtxOf(s, ids[0]);
            PtxOf(s', ids[0]) == [ps[|ps| - 1]] && Read(files', ps[|ps| - 1].file) == TextAfter(files, ps)
  {
    var id, ps := ids[0], PtxOf(s, ids[0]);
    StillPresent(s, ids);
    MergedIn(s, id);
    MergedPtx(s, id, id);
    MergedText(files, ps);
    Unmerged(MergedList(s, id), CarryAll(files, None, ps), ids[1..], id);
    assert ps[|ps| - 1] in PtxOf(MergedList(s, id), id);
  }

  /** What one identifier ends up with after pruning to `kept` and merging: one PTX section, an admitted one of the
      highest capability, if it has an admitted one, with its own text followed by the earlier ones past their headers,
      newest first, if and only if no short text comes after a longer one; and none otherwise. */
  ghost predicate Ends(s: seq<Section>, kept: seq<Section>, files: Files, forced: nat, ptxplus: bool, id: string,
                       s': seq<Section>, files': Files) {
    var ps := PtxOf(kept, id);
    if SomeAdmitted(s, id, forced, ptxplus) then
      && ps != [] && PtxOf(s', id) == [ps[|ps| - 1]]
      && ps[|ps| - 1] in s && Admitted(ps[|ps| - 1], id, forced, ptxplus)
      && (forall z :: z in s && Admitted(z, id, forced, ptxplus) ==> z.arch <= ps[|ps| - 1].arch)
      && (Read(files', ps[|ps| - 1].file) == FinalText(files, ps) <==> Headed(files, ps))
    else PtxOf(s', id) == []
  }

  /** Prune, then merge, for every configuration. */
  lemma PruneThenMerge(s: seq<Section>, files: Files, forced: nat, ptxplus: bool, id: string)
    requires OwnFiles(s) && DistinctFiles(PtxOf(Pruned(s, EffectiveMax(forced, ptxplus)), id))
    ensures var kept := Pruned(s, EffectiveMax(forced, ptxplus));
            && AllPresent(kept, Ids(kept, [])) && NoRepeats(Ids(kept, []))
            && var (s', files') := MergeAll(kept, files, Ids(kept, []));
            Ends(s, kept, files, forced, ptxplus, id, s', files')
  {
    var kept := Pruned(s, EffectiveMax(forced, ptxplus));
    KeptByConfiguration(s, id, forced, ptxplus);
    IdsAre(kept, []);
    if SomeAdmitted(s, id, forced, ptxplus) {
      var ps := PtxOf(kept, id);
      assert ps[|ps| - 1] in ps;
      MergeLeavesOne(kept, files, Ids(kept, []), id);
      TextAfterExact(files, ps);
    } else {
      Unmerged(kept, files, Ids(kept, []), id);
    }
  }

  lemma KeptByConfiguration(s: seq<Section>, id: string, forced: nat, ptxplus: bool)
    ensures var kept := Pruned(s, EffectiveMax(forced, ptxplus));
            && (forall x :: x in kept ==> x in s)
            && (PtxOf(kept, id) != [] <==> SomeAdmitted(s, id, forced, ptxplus))
            && forall x :: x in PtxOf(kept, id) ==>
                 x in s && Admitted(x, id, forced, ptxplus)
                 && forall z :: z in s && Admitted(z, id, forced, ptxplus) ==> z.arch <= x.arch
  {
    var kept := Pruned(s, EffectiveMax(forced, ptxplus));
    forall x ensures x in kept <==> x in s && Survives(s, x, forced, ptxplus) {
      PruneExact(s, x, forced, ptxplus);
    }
    PruneConfigured(s, kept, id, forced, ptxplus);
  }
}
