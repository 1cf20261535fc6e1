/**
 The provider directory query: select the rows of the provider table whose
 department matches a specialty (falling back to a fixed synonym table),
 narrow them to a location, and drop those the availability draw marks as
 unavailable. The random draw is an explicit oracle: one flag per candidate.
 */
module Directory {
  import opened Text
  import opened Seqs

  /** One row of the provider table, with its fixed column schema. */
  datatype Record = Record(
    provider: string,
    department: string,
    district: string,
    upazila: string,
    address: string,
    degree: string,
    post: string,
    contactNo: string,
    professional: string)

  /** The synonym table consulted when no department matches the specialty.
      Keys are lower-case; the mapped departments are compared literally. */
  const Synonyms: map<string, seq<string>> := map[
    "cardiology" := ["Cardiology"],
    "dermatology" := ["Dermatology"],
    "neurology" := ["Neurology"],
    "orthopedics" := ["Orthopedics"],
    "pediatrics" := ["Pediatrics"],
    "psychiatry" := ["Psychiatry"],
    "gynecology" := ["Gynecology"],
    "general practice" := ["General Medicine", "General Surgery"],
    "general medicine" := ["General Medicine"],
    "general surgery" := ["General Surgery"],
    "gastroenterology" := ["Gastroenterology"],
    "oncology" := ["Oncology"],
    "ophthalmology" := ["Ophthalmology"],
    "ent" := ["ENT"],
    "urology" := ["Urology"],
    "nephrology" := ["Nephrology"]
  ]

  /** The department equals the specialty, ignoring letter case. */
  predicate SameDepartment(r: Record, specialty: string)
  {
    Lower(r.department) == Lower(specialty)
  }

  /** Some row's department equals the specialty, ignoring letter case. */
  predicate HasExactMatch(db: seq<Record>, specialty: string)
  {
    exists i :: 0 <= i < |db| && SameDepartment(db[i], specialty)
  }

  /** The department is literally (case-sensitively) one of `departments`. */
  predicate InDepartments(r: Record, departments: seq<string>)
  {
    r.department in departments
  }

  /** The specialty step: exact case-insensitive match, else the synonym
      fallback, else nothing. */
  function SpecialtyMatches(db: seq<Record>, specialty: string): (r: seq<Record>)
    ensures IsSubseq(r, db)
  {
    var exact := Filter(db, x => SameDepartment(x, specialty));
    if |exact| > 0 then exact
    else if Lower(specialty) in Synonyms then
      Filter(db, x => InDepartments(x, Synonyms[Lower(specialty)]))
    else exact
  }

  /** The three columns the location is searched in. */
  function LocationFields(r: Record): seq<string>
  {
    [r.district, r.upazila, r.address]
  }

  /** The lower-cased location occurs in the lower-cased district, upazila or
      address: any one of the three is enough. */
  predicate MatchesLocation(r: Record, location: string)
  {
    || Contains(Lower(r.district), Lower(location))
    || Contains(Lower(r.upazila), Lower(location))
    || Contains(Lower(r.address), Lower(location))
  }

  /** A row matches a location exactly when the lower-cased location occurs,
      at some position, in at least one of its three lower-cased location
      columns. */
  lemma LocationOccurs(r: Record, location: string)
    ensures MatchesLocation(r, location) <==>
      exists k, i :: 0 <= k < 3 && OccursAt(Lower(LocationFields(r)[k]), Lower(location), i)
  {
    var f := LocationFields(r);
    assert f[0] == r.district && f[1] == r.upazila && f[2] == r.address;
    assert (exists k, i :: 0 <= k < 3 && OccursAt(Lower(f[k]), Lower(location), i)) <==>
      (exists i :: OccursAt(Lower(f[0]), Lower(location), i))
      || (exists i :: OccursAt(Lower(f[1]), Lower(location), i))
      || (exists i :: OccursAt(Lower(f[2]), Lower(location), i));
  }

  /** The location step; an empty location applies no filter. */
  function LocationMatches(rs: seq<Record>, location: string): (r: seq<Record>)
    ensures IsSubseq(r, rs)
    ensures location == "" ==> r == rs
    ensures location != "" ==> forall i :: 0 <= i < |r| ==> MatchesLocation(r[i], location)
  {
    SubseqReflexive(rs);
    if location == "" then rs else Filter(rs, x => MatchesLocation(x, location))
  }

  /** The rows that go into the availability draw. */
  function Candidates(db: seq<Record>, specialty: string, location: string): (r: seq<Record>)
    ensures IsSubseq(r, db)
  {
    var s := SpecialtyMatches(db, specialty);
    var l := LocationMatches(s, location);
    SubseqTransitive(l, s, db);
    l
  }

  /** The first `n` answers of the availability oracle: `draw(i)` is the draw
      for the i-th candidate in table order. */
  function Draws(draw: nat -> bool, n: nat): (flags: seq<bool>)
    ensures |flags| == n
    ensures forall i :: 0 <= i < n ==> flags[i] == draw(i)
  {
    seq(n, i requires 0 <= i < n => draw(i))
  }

  /** The whole query: the candidates whose draw says they are available, in
      table order. */
  function FilterDoctors(db: seq<Record>, specialty: string, location: string,
                         draw: nat -> bool): (r: seq<Record>)
    ensures IsSubseq(r, Candidates(db, specialty, location))
    ensures IsSubseq(r, db)
    ensures |r| <= |Candidates(db, specialty, location)|
    ensures |r| == CountTrue(Draws(draw, |Candidates(db, specialty, location)|))
  {
    var c := Candidates(db, specialty, location);
    var r := Mask(c, Draws(draw, |c|));
    SubseqTransitive(r, c, db);
    SubseqElements(r, c);
    r
  }

  /** The availability loop: walks the candidates in order and keeps each one
      whose draw says it is available. */
  method DropUnavailable(candidates: seq<Record>, available: seq<bool>)
      returns (kept: seq<Record>)
    requires |available| == |candidates|
    ensures kept == Mask(candidates, available)
    ensures IsSubseq(kept, candidates)
  {
    kept := [];
    var i := 0;
    while i < |candidates|
      invariant 0 <= i <= |candidates|
      invariant kept == Mask(candidates[..i], available[..i])
    {
      MaskSnoc(candidates[..i], available[..i], candidates[i], available[i]);
      assert candidates[..i + 1] == candidates[..i] + [candidates[i]];
      assert available[..i + 1] == available[..i] + [available[i]];
      if available[i] {
        kept := kept + [candidates[i]];
      }
      i := i + 1;
    }
    assert candidates[..i] == candidates;
    assert available[..i] == available;
  }

  /** If some department matches the specialty ignoring case, the synonym
      table is not consulted: the specialty step selects exactly the rows
      whose department matches ignoring case. */
  lemma ExactMatchWins(db: seq<Record>, specialty: string)
    requires HasExactMatch(db, specialty)
    ensures SpecialtyMatches(db, specialty) == Filter(db, x => SameDepartment(x, specialty))
    ensures forall x :: x in SpecialtyMatches(db, specialty) <==> x in db && SameDepartment(x, specialty)
  {
    var p := x => SameDepartment(x, specialty);
    var i :| 0 <= i < |db| && SameDepartment(db[i], specialty);
    FilterComplete(db, p, db[i]);
    forall x ensures x in Filter(db, p) <==> x in db && SameDepartment(x, specialty) {
      FilterMembers(db, p, x);
    }
  }

  /** Without an exact match, a specialty that is a synonym key selects exactly
      the rows whose department is literally one of the mapped departments. */
  lemma SynonymFallback(db: seq<Record>, specialty: string)
    requires !HasExactMatch(db, specialty)
    requires Lower(specialty) in Synonyms
    ensures forall x :: x in SpecialtyMatches(db, specialty) <==>
      x in db && x.department in Synonyms[Lower(specialty)]
  {
    NoExactMatchEmpty(db, specialty);
    var deps := Synonyms[Lower(specialty)];
    var p := x => InDepartments(x, deps);
    assert SpecialtyMatches(db, specialty) == Filter(db, p);
    forall x ensures x in Filter(db, p) <==> x in db && x.department in deps {
      FilterMembers(db, p, x);
    }
  }

  /** Without an exact match, a specialty that is a synonym key makes the
      specialty step the selection, from the whole table, of the rows whose
      department is literally one of the mapped departments (duplicates
      included, in table order). */
  lemma SynonymSelection(db: seq<Record>, specialty: string)
    requires !HasExactMatch(db, specialty)
    requires Lower(specialty) in Synonyms
    ensures SpecialtyMatches(db, specialty)
      == Filter(db, x => InDepartments(x, Synonyms[Lower(specialty)]))
  {
    NoExactMatchEmpty(db, specialty);
  }

  /** With no department matching the specialty, the exact-match selection is empty. */
  lemma {:induction false} NoExactMatchEmpty(db: seq<Record>, specialty: string)
    requires !HasExactMatch(db, specialty)
    ensures Filter(db, x => SameDepartment(x, specialty)) == []
    decreases |db|
  {
    if |db| > 0 {
      assert !SameDepartment(db[0], specialty);
      assert !HasExactMatch(db[1..], specialty) by {
        forall i | 0 <= i < |db| - 1 ensures !SameDepartment(db[1..][i], specialty) {
          assert db[1..][i] == db[i + 1];
        }
      }
      NoExactMatchEmpty(db[1..], specialty);
    }
  }

  /** "general practice", in any letter case, falls back to the rows whose
      department is literally "General Medicine" or "General Surgery". */
  lemma GeneralPracticeFallback(db: seq<Record>, specialty: string)
    requires Lower(specialty) == "general practice"
    requires !HasExactMatch(db, specialty)
    ensures forall x :: x in SpecialtyMatches(db, specialty) <==>
      x in db && (x.department == "General Medicine" || x.department == "General Surgery")
  {
    assert Synonyms["general practice"] == ["General Medicine", "General Surgery"];
    SynonymFallback(db, specialty);
  }

  /** The fallback compares departments case-sensitively: a row spelled
      "GENERAL SURGERY" is not found for "general practice". */
  lemma FallbackIsCaseSensitive()
    ensures var r := Record("A", "GENERAL SURGERY", "Dhaka", "Savar", "Road 1", "MBBS", "Consultant", "0", "Doctor");
      SpecialtyMatches([r], "general practice") == []
  {
  }

  /** Without an exact match, a specialty that is not a synonym key yields an
      empty candidate list whatever the location, so the query returns an empty
      result; this is not an error. */
  lemma UnknownSpecialtyEmpty(db: seq<Record>, specialty: string, location: string,
                              draw: nat -> bool)
    requires !HasExactMatch(db, specialty)
    requires Lower(specialty) !in Synonyms
    ensures Candidates(db, specialty, location) == []
    ensures FilterDoctors(db, specialty, location, draw) == []
  {
    NoExactMatchEmpty(db, specialty);
    assert SpecialtyMatches(db, specialty) == [];
    var l := Candidates(db, specialty, location);
    SubseqElements(l, SpecialtyMatches(db, specialty));
  }

  /** No synonym key is longer than sixteen characters. */
  lemma SynonymKeysShort()
    ensures forall k :: k in Synonyms ==> |k| <= 16
  {
  }

  /** "Nonexistent Specialty" with no location gives nothing, as long as no
      department is spelled that way. */
  lemma NonexistentSpecialtyScenario(db: seq<Record>, draw: nat -> bool)
    requires forall i :: 0 <= i < |db| ==> Lower(db[i].department) != Lower("Nonexistent Specialty")
    ensures Candidates(db, "Nonexistent Specialty", "") == []
    ensures FilterDoctors(db, "Nonexistent Specialty", "", draw) == []
  {
    var s := "Nonexistent Specialty";
    assert |Lower(s)| == 21;
    SynonymKeysShort();
    assert Lower(s) !in Synonyms;
    assert !HasExactMatch(db, s);
    UnknownSpecialtyEmpty(db, s, "", draw);
  }

  /** With a location, every candidate (hence every result) contains the
      lower-cased location in its lower-cased district, upazila or address;
      and every specialty match that does so is a candidate. */
  lemma LocationFilterSelects(db: seq<Record>, specialty: string, location: string)
    requires location != ""
    ensures forall x :: x in Candidates(db, specialty, location) <==>
      x in SpecialtyMatches(db, specialty) && MatchesLocation(x, location)
  {
    var s := SpecialtyMatches(db, specialty);
    var p := x => MatchesLocation(x, location);
    assert Candidates(db, specialty, location) == Filter(s, p);
    forall x ensures x in Filter(s, p) <==> x in s && MatchesLocation(x, location) {
      FilterMembers(s, p, x);
    }
  }

  /** With a location, there are exactly as many candidates as there are
      positions among the specialty matches whose row matches the location:
      duplicate rows are kept, not merged. */
  lemma LocationSelection(db: seq<Record>, specialty: string, location: string)
    requires location != ""
    ensures |Candidates(db, specialty, location)|
      == CountTrue(Marks(SpecialtyMatches(db, specialty), x => MatchesLocation(x, location)))
  {
    FilterIsMask(SpecialtyMatches(db, specialty), x => MatchesLocation(x, location));
  }

  /** A specialty match whose address contains the location is a candidate,
      whatever its district and upazila say. */
  lemma AddressAloneSuffices(db: seq<Record>, specialty: string, location: string, x: Record)
    requires x in SpecialtyMatches(db, specialty)
    requires Contains(Lower(x.address), Lower(location))
    ensures x in Candidates(db, specialty, location)
  {
    if location != "" {
      LocationFilterSelects(db, specialty, location);
    }
  }

  /** With an empty location the location step changes nothing. */
  lemma EmptyLocationKeepsAll(db: seq<Record>, specialty: string)
    ensures Candidates(db, specialty, "") == SpecialtyMatches(db, specialty)
  {
  }

  /** The draw only removes rows: every result is a candidate and every
      result is a specialty/location match. */
  lemma ResultsAreMatches(db: seq<Record>, specialty: string, location: string,
                          draw: nat -> bool)
    ensures forall x :: x in FilterDoctors(db, specialty, location, draw) ==>
      x in db && x in SpecialtyMatches(db, specialty)
      && (location != "" ==> MatchesLocation(x, location))
  {
    var s := SpecialtyMatches(db, specialty);
    var c := Candidates(db, specialty, location);
    var r := FilterDoctors(db, specialty, location, draw);
    SubseqElements(r, c);
    SubseqElements(c, s);
    SubseqElements(s, db);
    if location != "" {
      LocationFilterSelects(db, specialty, location);
    }
  }

  /** If some department matches the specialty ignoring case, every returned
      row's department matches it ignoring case. */
  lemma ExactMatchResults(db: seq<Record>, specialty: string, location: string,
                          draw: nat -> bool)
    requires HasExactMatch(db, specialty)
    ensures forall x :: x in FilterDoctors(db, specialty, location, draw) ==>
      SameDepartment(x, specialty)
  {
    ExactMatchWins(db, specialty);
    ResultsAreMatches(db, specialty, location, draw);
  }

  /** With every draw positive the result is the candidate list, in order. */
  lemma AllAvailableKeepsCandidates(db: seq<Record>, specialty: string, location: string,
                                    draw: nat -> bool)
    requires forall i: nat :: draw(i)
    ensures FilterDoctors(db, specialty, location, draw) == Candidates(db, specialty, location)
  {
    var c := Candidates(db, specialty, location);
    MaskAllTrue(c, Draws(draw, |c|));
  }

  /** A candidate whose draw is positive is returned. */
  lemma AvailableCandidateReturned(db: seq<Record>, specialty: string, location: string,
                                   draw: nat -> bool)
    ensures forall i :: 0 <= i < |Candidates(db, specialty, location)| && draw(i) ==>
      Candidates(db, specialty, location)[i] in FilterDoctors(db, specialty, location, draw)
  {
    var c := Candidates(db, specialty, location);
    forall i | 0 <= i < |c| && draw(i)
      ensures c[i] in FilterDoctors(db, specialty, location, draw)
    {
      MaskKeeps(c, Draws(draw, |c|), i);
    }
  }

  /** A row is returned exactly when it is a candidate at some position whose
      draw keeps it: the draw only removes, and removes only the rows it marks. */
  lemma ReturnedIffAvailable(db: seq<Record>, specialty: string, location: string,
                             draw: nat -> bool)
    ensures forall x :: x in FilterDoctors(db, specialty, location, draw) <==>
      exists i :: 0 <= i < |Candidates(db, specialty, location)|
        && Candidates(db, specialty, location)[i] == x && draw(i)
  {
    var c := Candidates(db, specialty, location);
    var flags := Draws(draw, |c|);
    forall x ensures x in FilterDoctors(db, specialty, location, draw) <==>
      exists i :: 0 <= i < |c| && c[i] == x && draw(i)
    {
      if x in Mask(c, flags) {
        MaskOnlyFlagged(c, flags, x);
      }
      if exists i :: 0 <= i < |c| && c[i] == x && draw(i) {
        var i :| 0 <= i < |c| && c[i] == x && draw(i);
        MaskKeeps(c, flags, i);
      }
    }
  }

  lemma LowerDhaka()
    ensures Lower("Dhaka") == "dhaka" && Lower("dhaka") == "dhaka"
  {
  }

  /** A "Cardiology" row in district "Dhaka" is a candidate for the query
      ("Cardiology", "dhaka"), and is returned whenever its draw keeps it. */
  lemma CardiologyDhakaScenario(db: seq<Record>, k: nat, draw: nat -> bool)
    requires k < |db| && db[k].department == "Cardiology" && db[k].district == "Dhaka"
    ensures db[k] in Candidates(db, "Cardiology", "dhaka")
    ensures forall i :: (0 <= i < |Candidates(db, "Cardiology", "dhaka")| && draw(i)
      && Candidates(db, "Cardiology", "dhaka")[i] == db[k]) ==>
      db[k] in FilterDoctors(db, "Cardiology", "dhaka", draw)
  {
    var x := db[k];
    assert HasExactMatch(db, "Cardiology") by {
      assert SameDepartment(db[k], "Cardiology");
    }
    ExactMatchWins(db, "Cardiology");
    LowerDhaka();
    assert OccursAt(Lower(x.district), Lower("dhaka"), 0);
    assert MatchesLocation(x, "dhaka");
    LocationFilterSelects(db, "Cardiology", "dhaka");
    AvailableCandidateReturned(db, "Cardiology", "dhaka", draw);
  }
}
