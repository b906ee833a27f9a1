/** The college query engine of `MemStorage`: the stream category index and
    the five college queries (`getColleges`, `getCollegesByLocation`,
    `getCollegesByStream`, `getCollegesByType`, `getCollegesFiltered`). */
module Colleges {
  import opened Base
  import opened Text
  import opened Seqs
  import opened Tables
  import opened Schema

  const EngineeringStreams: seq<string> := [
    "Computer Science", "Electronics & Communication", "Electrical Engineering",
    "Mechanical Engineering", "Civil Engineering", "Chemical Engineering",
    "Information Technology", "Electronics & Instrumentation", "Aerospace Engineering",
    "Automobile Engineering", "Production Engineering", "Mining Engineering",
    "Metallurgical Engineering", "Petroleum Engineering", "Mathematics & Computing",
    "Biotechnology", "Data Science", "Artificial Intelligence", "Instrumentation & Control",
    "Manufacturing Process & Automation"]

  const MedicalStreams: seq<string> := [
    "MBBS", "BDS", "BAMS", "BHMS", "BUMS", "Nursing", "Pharmacy",
    "Physiotherapy", "Medical Laboratory Technology", "Radiology",
    "Optometry", "Veterinary Science"]

  const CommerceStreams: seq<string> := [
    "B.Com", "BBA", "Chartered Accountancy", "Company Secretary",
    "Cost & Management Accountancy", "Banking & Finance",
    "Business Management", "Economics"]

  const ArtsStreams: seq<string> := [
    "BA", "Fine Arts", "Literature", "History", "Political Science",
    "Psychology", "Sociology", "Philosophy", "Journalism",
    "Mass Communication", "Languages"]

  const ScienceStreams: seq<string> := [
    "B.Sc", "Physics", "Chemistry", "Mathematics", "Biology",
    "Environmental Science", "Geology", "Statistics", "Zoology",
    "Botany", "Microbiology"]

  /** The fixed mapping from the five UI categories to concrete stream names. */
  const StreamCategoryMapping: map<string, seq<string>> := map[
    "Engineering" := EngineeringStreams,
    "Medical" := MedicalStreams,
    "Commerce" := CommerceStreams,
    "Arts" := ArtsStreams,
    "Science" := ScienceStreams
  ]

  /** The mapping has exactly the five categories, with 20, 12, 8, 11 and
      11 streams. */
  lemma CategoryMappingShape()
    ensures StreamCategoryMapping.Keys == {"Engineering", "Medical", "Commerce", "Arts", "Science"}
    ensures |StreamCategoryMapping["Engineering"]| == 20 && |StreamCategoryMapping["Medical"]| == 12
    ensures |StreamCategoryMapping["Commerce"]| == 8 && |StreamCategoryMapping["Arts"]| == 11
    ensures |StreamCategoryMapping["Science"]| == 11
  {
  }

  /** The category test on one pair: either stream includes the other,
      ignoring ASCII case. */
  predicate Overlaps(categoryStream: string, collegeStream: string)
    ensures |categoryStream| == |collegeStream| ==>
              (Overlaps(categoryStream, collegeStream) <==> Lower(categoryStream) == Lower(collegeStream))
    ensures |categoryStream| < |collegeStream| ==>
              (Overlaps(categoryStream, collegeStream) <==> ContainsIgnoringCase(collegeStream, categoryStream))
    ensures |categoryStream| > |collegeStream| ==>
              (Overlaps(categoryStream, collegeStream) <==> ContainsIgnoringCase(categoryStream, collegeStream))
  {
    if |categoryStream| == |collegeStream| then
      ContainsSameLength(Lower(collegeStream), Lower(categoryStream));
      ContainsSameLength(Lower(categoryStream), Lower(collegeStream));
      ContainsIgnoringCase(collegeStream, categoryStream) || ContainsIgnoringCase(categoryStream, collegeStream)
    else
      ContainsIgnoringCase(collegeStream, categoryStream) || ContainsIgnoringCase(categoryStream, collegeStream)
  }

  /** `collegeStreams.some(cs => Overlaps(categoryStream, cs))`. */
  function AnyOverlap(categoryStream: string, collegeStreams: seq<string>): (r: bool)
    ensures r <==> exists j :: 0 <= j < |collegeStreams| && Overlaps(categoryStream, collegeStreams[j])
  {
    if collegeStreams == [] then false
    else Overlaps(categoryStream, collegeStreams[0]) || AnyOverlap(categoryStream, collegeStreams[1..])
  }

  /** `categoryStreams.some(cat => collegeStreams.some(cs => Overlaps(cat, cs)))`. */
  function CategoryMatch(categoryStreams: seq<string>, collegeStreams: seq<string>): (r: bool)
    ensures r <==> exists i, j :: 0 <= i < |categoryStreams| && 0 <= j < |collegeStreams|
                                  && Overlaps(categoryStreams[i], collegeStreams[j])
  {
    if categoryStreams == [] then false
    else
      AnyOverlap(categoryStreams[0], collegeStreams)
      || (var rest := CategoryMatch(categoryStreams[1..], collegeStreams);
          assert forall i :: 1 <= i < |categoryStreams| ==> categoryStreams[1..][i - 1] == categoryStreams[i];
          rest)
  }

  /** The stream test both stream queries apply to a college's stream list:
      a verbatim member, or else a category name one of whose streams
      overlaps one of the college's. An unknown name that is not a member
      matches nothing. */
  predicate StreamMatches(collegeStreams: seq<string>, stream: string)
    ensures stream in collegeStreams ==> StreamMatches(collegeStreams, stream)
    ensures stream !in StreamCategoryMapping ==> (StreamMatches(collegeStreams, stream) <==> stream in collegeStreams)
    ensures stream in StreamCategoryMapping ==>
              (StreamMatches(collegeStreams, stream) <==>
                 stream in collegeStreams
                 || exists i, j :: 0 <= i < |StreamCategoryMapping[stream]| && 0 <= j < |collegeStreams|
                                   && Overlaps(StreamCategoryMapping[stream][i], collegeStreams[j]))
  {
    if stream in collegeStreams then true
    else if stream in StreamCategoryMapping then CategoryMatch(StreamCategoryMapping[stream], collegeStreams)
    else false
  }

  /** The optional arguments of `getCollegesFiltered`. */
  datatype Filters = Filters(location: Option<string>, stream: Option<string>, kind: Option<string>)

  /** The five college queries the store offers. */
  datatype CollegeQuery =
    | AllColleges
    | ByLocation(location: string)
    | ByStream(stream: string)
    | ByKind(kind: string)
    | Filtered(filters: Filters)

  /** `getCollegesFiltered`'s per-college test: active, then each filter
      whose value is truthy; the stream filter is skipped for a college whose
      streams are not a list. */
  predicate FilteredAdmits(f: Filters, c: College)
    ensures FilteredAdmits(f, c) ==> c.isActive
    ensures FilteredAdmits(f, c) && Truthy(f.location) ==> ContainsIgnoringCase(c.location, f.location.value)
    ensures FilteredAdmits(f, c) && Truthy(f.kind) ==> c.kind == f.kind.value
    ensures !Truthy(f.location) && !Truthy(f.stream) && !Truthy(f.kind) ==> (FilteredAdmits(f, c) <==> c.isActive)
  {
    if !c.isActive then false
    else if Truthy(f.location) && !ContainsIgnoringCase(c.location, f.location.value) then false
    else if Truthy(f.kind) && c.kind != f.kind.value then false
    else if Truthy(f.stream) && c.streams.StreamList? then StreamMatches(c.streams.names, f.stream.value)
    else true
  }

  /** The per-college test of each query. */
  predicate Admits(q: CollegeQuery, c: College)
    ensures Admits(q, c) ==> c.isActive
    ensures q.ByStream? && Admits(q, c) ==> c.streams.StreamList?
  {
    match q
    case AllColleges => c.isActive
    case ByLocation(location) => c.isActive && ContainsIgnoringCase(c.location, location)
    case ByStream(stream) =>
      if !c.isActive || !c.streams.StreamList? then false
      else StreamMatches(c.streams.names, stream)
    case ByKind(kind) => c.isActive && c.kind == kind
    case Filtered(f) => FilteredAdmits(f, c)
  }

  /** Runs a query over the college table: the admitted colleges, in table order. */
  function Query(t: Table<College>, q: CollegeQuery): (r: seq<College>)
    ensures forall c :: c in r <==> c in Values(t) && Admits(q, c)
  {
    Filter(Values(t), q, Admits)
  }

  /** Query results follow table order: a table split in two answers with the
      first part's results followed by the second's. */
  lemma QueryInTableOrder(a: Table<College>, b: Table<College>, q: CollegeQuery)
    ensures Query(a + b, q) == Query(a, q) + Query(b, q)
  {
    ValuesAppend(a, b);
    FilterAppend(Values(a), Values(b), q, Admits);
  }

  /** A query returns every admitted row as many times as the table holds it. */
  lemma QueryKeepsEveryCopy(t: Table<College>, q: CollegeQuery, c: College)
    ensures multiset(Query(t, q))[c] == if Admits(q, c) then multiset(Values(t))[c] else 0
  {
    FilterMultiset(Values(t), q, Admits, c);
  }

  /** The combined filter is the conjunction of the standalone ones, each
      taken only when its value is truthy (the stream one only for a college
      with a stream list). */
  lemma FilteredIsConjunction(f: Filters, c: College)
    ensures Admits(Filtered(f), c) <==>
              && Admits(AllColleges, c)
              && (Truthy(f.location) ==> Admits(ByLocation(f.location.value), c))
              && (Truthy(f.kind) ==> Admits(ByKind(f.kind.value), c))
              && (Truthy(f.stream) && c.streams.StreamList? ==> Admits(ByStream(f.stream.value), c))
  {
  }

  /** With no truthy filter value, `getCollegesFiltered` is `getColleges`. */
  lemma FilteredWithoutFiltersIsAll(t: Table<College>, f: Filters)
    requires !Truthy(f.location) && !Truthy(f.stream) && !Truthy(f.kind)
    ensures Query(t, Filtered(f)) == Query(t, AllColleges)
  {
    FilterAgree(Values(t), Filtered(f), Admits, AllColleges, Admits);
  }

  /** `getCollegesByLocation(l)` agrees with the combined filter given only
      `location: l`, for every `l` (the empty string keeps every college in
      both). */
  lemma LocationQueriesAgree(t: Table<College>, location: string)
    ensures Query(t, ByLocation(location)) == Query(t, Filtered(Filters(Some(location), None, None)))
  {
    if location == "" {
      forall c: College ensures ContainsIgnoringCase(c.location, location) {
        assert Lower(location) == "";
        ContainsEmpty(Lower(c.location));
      }
    }
    FilterAgree(Values(t), ByLocation(location), Admits, Filtered(Filters(Some(location), None, None)), Admits);
  }

  /** `getCollegesByType(k)` agrees with the combined filter given only
      `type: k`, for every non-empty `k`. */
  lemma KindQueriesAgree(t: Table<College>, kind: string)
    requires kind != ""
    ensures Query(t, ByKind(kind)) == Query(t, Filtered(Filters(None, None, Some(kind))))
  {
    FilterAgree(Values(t), ByKind(kind), Admits, Filtered(Filters(None, None, Some(kind))), Admits);
  }

  /** `getCollegesByType("")` is not the unfiltered list: it keeps only the
      active colleges whose type is literally empty, while the combined filter
      treats "" as no filter. */
  lemma EmptyKindDiverges(c: College)
    requires c.isActive && c.kind != ""
    ensures !Admits(ByKind(""), c) && Admits(Filtered(Filters(None, None, Some(""))), c)
  {
  }

  /** For a non-empty stream, `getCollegesByStream(s)` agrees with the combined
      filter given only `stream: s`, provided every college's streams are a list. */
  lemma StreamQueriesAgree(t: Table<College>, stream: string)
    requires stream != ""
    requires forall c :: c in Values(t) ==> c.streams.StreamList?
    ensures Query(t, ByStream(stream)) == Query(t, Filtered(Filters(None, Some(stream), None)))
  {
    FilterAgree(Values(t), ByStream(stream), Admits, Filtered(Filters(None, Some(stream), None)), Admits);
  }

  /** The one place the two stream queries part: an active college whose
      streams are not a list is dropped by `getCollegesByStream` and kept by
      `getCollegesFiltered`. */
  lemma MalformedStreamsDiverge(t: Table<College>, c: College, stream: string)
    requires c in Values(t) && c.isActive && c.streams == Malformed
    requires stream != ""
    ensures c !in Query(t, ByStream(stream))
    ensures c in Query(t, Filtered(Filters(None, Some(stream), None)))
  {
  }

  /** A stream named verbatim in an active college's list selects it, whether
      or not the name is also a category. */
  lemma DirectStreamMatch(t: Table<College>, c: College, stream: string)
    requires c in Values(t) && c.isActive && c.streams.StreamList?
    requires stream in c.streams.names
    ensures c in Query(t, ByStream(stream))
    ensures c in Query(t, Filtered(Filters(None, Some(stream), None)))
  {
  }

  /** A name that is neither in the college's list nor a category never
      selects the college. */
  lemma UnknownStreamExcluded(c: College, stream: string)
    requires c.streams.StreamList? && stream !in c.streams.names
    requires stream !in StreamCategoryMapping
    ensures !Admits(ByStream(stream), c)
    ensures stream != "" ==> !Admits(Filtered(Filters(None, Some(stream), None)), c)
  {
  }

  /** Category query, in general: for a category name, an active college with
      a stream list is selected iff the name is one of its streams or some
      category stream and some college stream overlap. */
  lemma CategoryQuery(c: College, stream: string)
    requires stream in StreamCategoryMapping
    ensures Admits(ByStream(stream), c) <==>
              c.isActive && c.streams.StreamList?
              && (stream in c.streams.names
                  || exists i, j :: 0 <= i < |StreamCategoryMapping[stream]| && 0 <= j < |c.streams.names|
                                    && Overlaps(StreamCategoryMapping[stream][i], c.streams.names[j]))
  {
  }

  /** Each category other than Commerce has a stream that includes the
      category's own name ("Civil Engineering", "Medical Laboratory
      Technology", "Fine Arts", "Environmental Science"). */
  lemma CategoryNameOverlapsOwnStream(category: string)
    requires category in StreamCategoryMapping && category != "Commerce"
    ensures exists i :: 0 <= i < |StreamCategoryMapping[category]|
                        && Overlaps(StreamCategoryMapping[category][i], category)
  {
    if category == "Engineering" {
      EngineeringInOwnStream();
      assert StreamCategoryMapping[category] == EngineeringStreams;
    } else if category == "Medical" {
      MedicalInOwnStream();
      assert StreamCategoryMapping[category] == MedicalStreams;
    } else if category == "Arts" {
      ArtsInOwnStream();
      assert StreamCategoryMapping[category] == ArtsStreams;
    } else {
      assert category == "Science";
      ScienceInOwnStream();
      assert StreamCategoryMapping[category] == ScienceStreams;
    }
  }

  /** "Civil Engineering" includes "Engineering". */
  lemma EngineeringInOwnStream()
    ensures exists i :: 0 <= i < |EngineeringStreams| && Overlaps(EngineeringStreams[i], "Engineering")
  {
    assert EngineeringStreams[4] == "Civil Engineering";
    NameInStream("Civil Engineering", "Engineering", 6);
  }

  /** "Medical Laboratory Technology" includes "Medical". */
  lemma MedicalInOwnStream()
    ensures exists i :: 0 <= i < |MedicalStreams| && Overlaps(MedicalStreams[i], "Medical")
  {
    assert MedicalStreams[8] == "Medical Laboratory Technology";
    NameInStream("Medical Laboratory Technology", "Medical", 0);
  }

  /** "Fine Arts" includes "Arts". */
  lemma ArtsInOwnStream()
    ensures exists i :: 0 <= i < |ArtsStreams| && Overlaps(ArtsStreams[i], "Arts")
  {
    assert ArtsStreams[1] == "Fine Arts";
    NameInStream("Fine Arts", "Arts", 5);
  }

  /** "Environmental Science" includes "Science". */
  lemma ScienceInOwnStream()
    ensures exists i :: 0 <= i < |ScienceStreams| && Overlaps(ScienceStreams[i], "Science")
  {
    assert ScienceStreams[5] == "Environmental Science";
    NameInStream("Environmental Science", "Science", 14);
  }

  /** A stream that includes the category name at `at` overlaps it. */
  lemma NameInStream(stream: string, category: string, at: nat)
    requires at + |category| <= |stream| && stream[at..at + |category|] == category
    ensures Overlaps(stream, category)
  {
    assert OccursAt(stream, category, at);
    OccursIgnoringCase(stream, category, at);
  }


  /** For Engineering, Medical, Arts and Science the direct-match branch adds
      nothing: an active college with a stream list is selected iff some
      category stream and some college stream overlap. */
  lemma CategoryQueryIsOverlap(c: College, stream: string)
    requires stream in StreamCategoryMapping && stream != "Commerce"
    ensures Admits(ByStream(stream), c) <==>
              c.isActive && c.streams.StreamList?
              && CategoryMatch(StreamCategoryMapping[stream], c.streams.names)
  {
    if c.isActive && c.streams.StreamList? && stream in c.streams.names {
      var names := c.streams.names;
      var j :| 0 <= j < |names| && names[j] == stream;
      CategoryNameOverlapsOwnStream(stream);
      var i :| 0 <= i < |StreamCategoryMapping[stream]| && Overlaps(StreamCategoryMapping[stream][i], stream);
      assert Overlaps(StreamCategoryMapping[stream][i], names[j]);
    }
  }

  /** "B.Com" and "BBA" are shorter than "Commerce" and hold a character it
      lacks ('.' and 'b'), so neither overlaps it. */
  lemma ShortCommerceStreamsMissName(i: nat)
    requires i < 2
    ensures !Overlaps(CommerceStreams[i], "Commerce")
  {
    var name := "Commerce";
    if i == 0 {
      assert CommerceStreams[i] == "B.Com";
      LetterAbsent(name, '.');
      NotContainedByLetter(name, "B.Com", 1);
    } else {
      assert CommerceStreams[i] == "BBA";
      LetterAbsent(name, 'b');
      NotContainedByLetter(name, "BBA", 0);
    }
  }

  /** "Company Secretary" holds every letter of "Commerce", but one m where
      "Commerce" has two in a row. */
  lemma CompanySecretaryMissesName()
    ensures !Overlaps(CommerceStreams[3], "Commerce")
  {
    assert CommerceStreams[3] == "Company Secretary";
    LetterOnlyAt("Company Secretary", 'm', 2);
    NotContainedByRepeat("Company Secretary", "Commerce", 2, 3, 2);
  }

  /** A stream longer than a name, lacking (ignoring case) one of the name's
      characters, does not overlap it. */
  lemma LongerStreamMissesName(stream: string, name: string, k: nat)
    requires k < |name| < |stream|
    requires forall q :: 0 <= q < |stream| ==> LowerChar(stream[q]) != LowerChar(name[k])
    ensures !Overlaps(stream, name)
  {
    NotContainedByLetter(stream, name, k);
  }

  /** "Chartered Accountancy" and "Banking & Finance" have no m, which
      "Commerce" has. */
  lemma StreamsWithoutMMissName(i: nat)
    requires i == 2 || i == 5
    ensures !Overlaps(CommerceStreams[i], "Commerce")
  {
    var name := "Commerce";
    if i == 2 {
      assert CommerceStreams[i] == "Chartered Accountancy";
      LetterAbsent("Chartered Accountancy", 'm');
      LongerStreamMissesName("Chartered Accountancy", name, 2);
    } else {
      assert CommerceStreams[i] == "Banking & Finance";
      LetterAbsent("Banking & Finance", 'm');
      LongerStreamMissesName("Banking & Finance", name, 2);
    }
  }

  /** "Cost & Management Accountancy" and "Economics" have no r, which
      "Commerce" has. */
  lemma StreamsWithoutRMissName(i: nat)
    requires i == 4 || i == 7
    ensures !Overlaps(CommerceStreams[i], "Commerce")
  {
    var name := "Commerce";
    if i == 4 {
      assert CommerceStreams[i] == "Cost & Management Accountancy";
      LetterAbsent("Cost & Management Accountancy", 'r');
      LongerStreamMissesName("Cost & Management Accountancy", name, 5);
    } else {
      assert CommerceStreams[i] == "Economics";
      LetterAbsent("Economics", 'r');
      LongerStreamMissesName("Economics", name, 5);
    }
  }

  /** "Business Management" has no o, which "Commerce" has. */
  lemma BusinessManagementMissesName()
    ensures !Overlaps(CommerceStreams[6], "Commerce")
  {
    assert CommerceStreams[6] == "Business Management";
    LetterAbsent("Business Management", 'o');
    LongerStreamMissesName("Business Management", "Commerce", 1);
  }

  /** Commerce is the exception: a college whose only stream is "Commerce" is
      selected by the direct match, yet no Commerce category stream overlaps
      any of its streams. */
  lemma CommerceOnlyByDirectMatch(c: College)
    requires c.isActive && c.streams == StreamList(["Commerce"])
    ensures Admits(ByStream("Commerce"), c)
    ensures !CategoryMatch(StreamCategoryMapping["Commerce"], c.streams.names)
  {
    forall i | 0 <= i < |CommerceStreams| ensures !Overlaps(CommerceStreams[i], "Commerce") {
      CommerceStreamMissesName(i);
    }
    assert StreamCategoryMapping["Commerce"] == CommerceStreams;
  }

  /** No one of the eight Commerce streams overlaps the word "Commerce". */
  lemma CommerceStreamMissesName(i: nat)
    requires i < |CommerceStreams|
    ensures !Overlaps(CommerceStreams[i], "Commerce")
  {
    if i < 2 {
      ShortCommerceStreamsMissName(i);
    } else if i == 3 {
      CompanySecretaryMissesName();
    } else if i == 2 || i == 5 {
      StreamsWithoutMMissName(i);
    } else if i == 6 {
      BusinessManagementMissesName();
    } else {
      StreamsWithoutRMissName(i);
    }
  }
}
