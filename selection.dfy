/**
 * The selection and search helpers: the selection key `${id}-${section}`,
 * `addCourse` / `removeCourse` on the list of selected keys, the catalog
 * filtered by that list, and the trimmed, lower-cased substring search on
 * course ids.
 */
module Selection {
  import opened Seqs
  import opened Schedule

  /** The selection key of a course. */
  function Key(course: Course): string
  {
    course.id + "-" + course.section
  }

  /** Keys are not unique in general: a hyphen inside the id can move into the section. */
  lemma KeyCollision()
    ensures Key(Course("A-1", "2", "", "", [], "", "", ""))
      == Key(Course("A", "1-2", "", "", [], "", "", ""))
  {
  }

  /** The position of the first hyphen of `s`, or `|s|` when there is none. */
  function HyphenIndex(s: string): (n: nat)
    ensures n <= |s|
  {
    if s == [] || s[0] == '-' then 0 else 1 + HyphenIndex(s[1..])
  }

  lemma {:induction false} HyphenAfter(id: string, rest: string)
    requires '-' !in id
    ensures HyphenIndex(id + "-" + rest) == |id|
  {
    if id != [] {
      assert (id + "-" + rest)[1..] == id[1..] + "-" + rest;
      HyphenAfter(id[1..], rest);
    }
  }

  /** With hyphen-free ids, equal keys mean equal id and section. */
  lemma KeyInjective(c: Course, d: Course)
    requires '-' !in c.id && '-' !in d.id
    requires Key(c) == Key(d)
    ensures c.id == d.id && c.section == d.section
  {
    HyphenAfter(c.id, c.section);
    HyphenAfter(d.id, d.section);
    var k := Key(c);
    assert c.id == k[..|c.id|] && d.id == k[..|d.id|];
    assert c.section == k[|c.id| + 1..] && d.section == k[|d.id| + 1..];
  }

  /** `addCourse`: the updated list of selected keys. */
  function AddCourse(keys: seq<string>, course: Course): (r: seq<string>)
    ensures Key(course) in keys ==> r == keys
    ensures Key(course) !in keys ==> r == keys + [Key(course)]
    ensures Key(course) in r
    ensures |keys| <= |r| <= |keys| + 1 && r[..|keys|] == keys
    ensures forall k :: k in r <==> k in keys || k == Key(course)
  {
    var key := Key(course);
    if key in keys then keys else keys + [key]
  }

  /** A key list with no key twice. */
  predicate Distinct(keys: seq<string>)
  {
    forall i, j :: 0 <= i < j < |keys| ==> keys[i] != keys[j]
  }

  /** Adding a course that is already selected changes nothing, so adding twice is adding once. */
  lemma AddIdempotent(keys: seq<string>, course: Course)
    ensures AddCourse(AddCourse(keys, course), course) == AddCourse(keys, course)
  {
  }

  /** Adding a course never creates a duplicate key. */
  lemma AddKeepsDistinct(keys: seq<string>, course: Course)
    requires Distinct(keys)
    ensures Distinct(AddCourse(keys, course))
  {
  }

  /** `removeCourse`: the updated list of selected keys. */
  function RemoveCourse(keys: seq<string>, course: Course): (r: seq<string>)
    ensures Key(course) !in r
    ensures forall k :: k in r <==> k in keys && k != Key(course)
  {
    var key := Key(course);
    Filter(keys, (k: string) => k != key)
  }

  /** Removing keeps every other key as often as before, and in order: it distributes over concatenation. */
  lemma RemoveKeepsOthers(keys: seq<string>, more: seq<string>, course: Course, k: string)
    requires k != Key(course)
    ensures multiset(RemoveCourse(keys, course))[k] == multiset(keys)[k]
    ensures RemoveCourse(keys + more, course) == RemoveCourse(keys, course) + RemoveCourse(more, course)
  {
    var key := Key(course);
    FilterMultiplicity(keys, (x: string) => x != key, k);
    FilterConcat(keys, more, (x: string) => x != key);
  }

  /** A list without the key is left alone by removal. */
  lemma RemoveAbsent(keys: seq<string>, course: Course)
    requires Key(course) !in keys
    ensures RemoveCourse(keys, course) == keys
  {
    var key := Key(course);
    FilterAll(keys, (x: string) => x != key);
  }

  /** Removing a course just added restores the list. */
  lemma RemoveAfterAdd(keys: seq<string>, course: Course)
    requires Key(course) !in keys
    ensures RemoveCourse(AddCourse(keys, course), course) == keys
  {
    var key := Key(course);
    RemoveKeepsOthers(keys, [key], course, "");
    RemoveAbsent(keys, course);
    FilterNone([key], (x: string) => x != key);
  }

  /** Adding a course just removed puts its key last. */
  lemma AddAfterRemove(keys: seq<string>, course: Course)
    ensures AddCourse(RemoveCourse(keys, course), course) == RemoveCourse(keys, course) + [Key(course)]
  {
  }

  function IsSelected(keys: seq<string>): Course -> bool
  {
    (course: Course) => Key(course) in keys
  }

  /** `selectedCourses`: the catalog courses whose key is selected, in catalog order. */
  function SelectedCourses(catalog: seq<Course>, keys: seq<string>): (r: seq<Course>)
    ensures forall c :: c in r <==> c in catalog && Key(c) in keys
  {
    Filter(catalog, IsSelected(keys))
  }

  /** The catalog order survives: the selection of a concatenated catalog is the concatenation of the selections. */
  lemma SelectedInCatalogOrder(catalog: seq<Course>, more: seq<Course>, keys: seq<string>)
    ensures SelectedCourses(catalog + more, keys) == SelectedCourses(catalog, keys) + SelectedCourses(more, keys)
  {
    FilterConcat(catalog, more, IsSelected(keys));
  }

  /** Only the set of selected keys matters, not their order or repetition. */
  lemma SelectedDependsOnKeySet(catalog: seq<Course>, keys: seq<string>, others: seq<string>)
    requires forall k :: k in keys <==> k in others
    ensures SelectedCourses(catalog, keys) == SelectedCourses(catalog, others)
  {
    FilterCongruent(catalog, IsSelected(keys), IsSelected(others));
  }

  /** Selecting no key selects no course. */
  lemma NothingSelected(catalog: seq<Course>)
    ensures SelectedCourses(catalog, []) == []
  {
    FilterNone(catalog, IsSelected([]));
  }

  /** The whitespace `String.prototype.trim` removes: JavaScript's WhiteSpace and LineTerminator characters. */
  predicate IsJsSpace(c: char)
  {
    || ('\U{9}' <= c <= '\U{D}')
    || c == '\U{20}' || c == '\U{A0}' || c == '\U{1680}'
    || ('\U{2000}' <= c <= '\U{200A}')
    || c == '\U{2028}' || c == '\U{2029}' || c == '\U{202F}' || c == '\U{205F}'
    || c == '\U{3000}' || c == '\U{FEFF}'
  }

  predicate AllSpace(s: string)
  {
    forall i :: 0 <= i < |s| ==> IsJsSpace(s[i])
  }

  function TrimStart(s: string): string
  {
    if s != [] && IsJsSpace(s[0]) then TrimStart(s[1..]) else s
  }

  function TrimEnd(s: string): string
  {
    if s != [] && IsJsSpace(s[|s| - 1]) then TrimEnd(s[..|s| - 1]) else s
  }

  /** `trim`. */
  function Trim(s: string): string
  {
    TrimEnd(TrimStart(s))
  }

  lemma {:induction false} TrimStartSpec(s: string)
    ensures var r := TrimStart(s);
      |r| <= |s| && s == s[..|s| - |r|] + r && AllSpace(s[..|s| - |r|])
      && (r == [] || !IsJsSpace(r[0]))
  {
    if s != [] && IsJsSpace(s[0]) {
      TrimStartSpec(s[1..]);
      var r := TrimStart(s[1..]);
      var lead := s[1..][..|s| - 1 - |r|];
      assert s[..|s| - |r|] == [s[0]] + lead;
    } else {
      assert s[..0] == [];
    }
  }

  lemma {:induction false} TrimEndSpec(s: string)
    ensures var r := TrimEnd(s);
      |r| <= |s| && s == r + s[|r|..] && AllSpace(s[|r|..])
      && (r == [] || !IsJsSpace(r[|r| - 1]))
  {
    if s != [] && IsJsSpace(s[|s| - 1]) {
      var init := s[..|s| - 1];
      TrimEndSpec(init);
      var r := TrimEnd(init);
      assert s[|r|..] == init[|r|..] + [s[|s| - 1]];
      assert s == init + [s[|s| - 1]];
    } else {
      assert s[|s|..] == [];
    }
  }

  /**
   * `trim` removes exactly the leading and trailing whitespace: the input is
   * whitespace, then the result, then whitespace, and the result neither
   * starts nor ends with whitespace.
   */
  lemma TrimSpec(s: string)
    ensures var r := Trim(s);
      (exists lead, trail :: s == lead + r + trail && AllSpace(lead) && AllSpace(trail))
      && (r == [] || (!IsJsSpace(r[0]) && !IsJsSpace(r[|r| - 1])))
  {
    TrimStartSpec(s);
    var m := TrimStart(s);
    TrimEndSpec(m);
    var r := TrimEnd(m);
    var lead, trail := s[..|s| - |m|], m[|r|..];
    assert s == lead + r + trail;
    if r != [] {
      assert r[0] == m[0];
    }
  }

  /** A string of whitespace only trims to the empty string. */
  lemma {:induction false} TrimAllSpace(s: string)
    requires AllSpace(s)
    ensures Trim(s) == []
  {
    if s != [] {
      TrimAllSpace(s[1..]);
    }
  }

  /** `toLowerCase` on one character, for the ASCII letters. */
  function LowerChar(c: char): char
  {
    if 'A' <= c <= 'Z' then (c as int - 'A' as int + 'a' as int) as char else c
  }

  /** `toLowerCase`. */
  function ToLower(s: string): (r: string)
    ensures |r| == |s|
  {
    seq(|s|, i requires 0 <= i < |s| => LowerChar(s[i]))
  }

  /**
   * Lower-casing turns each capital into its small letter, leaves no
   * upper-case letter, keeps every other character and is idempotent.
   */
  lemma ToLowerSpec(s: string)
    ensures forall i :: 0 <= i < |s| && 'A' <= s[i] <= 'Z' ==>
      ToLower(s)[i] == "abcdefghijklmnopqrstuvwxyz"[s[i] as int - 'A' as int]
    ensures forall i :: 0 <= i < |s| ==> !('A' <= ToLower(s)[i] <= 'Z')
    ensures forall i :: 0 <= i < |s| ==> !('A' <= s[i] <= 'Z') ==> ToLower(s)[i] == s[i]
    ensures ToLower(ToLower(s)) == ToLower(s)
  {
  }

  /** `sub` occurs at the front of `s`. */
  predicate StartsWith(s: string, sub: string)
  {
    |sub| <= |s| && s[..|sub|] == sub
  }

  /** `s.includes(sub)`. */
  predicate Includes(s: string, sub: string)
  {
    StartsWith(s, sub) || (s != [] && Includes(s[1..], sub))
  }

  /** `sub` occurs in `s` at position `i`. */
  predicate OccursAt(s: string, sub: string, i: int)
  {
    0 <= i <= |s| - |sub| && s[i..i + |sub|] == sub
  }

  /** `includes` holds iff `sub` occurs at some position of `s`. */
  lemma {:induction false} IncludesAt(s: string, sub: string)
    ensures Includes(s, sub) <==> exists i :: OccursAt(s, sub, i)
  {
    if s != [] {
      IncludesAt(s[1..], sub);
      if exists i :: OccursAt(s, sub, i) {
        var i :| OccursAt(s, sub, i);
        if i > 0 {
          assert OccursAt(s[1..], sub, i - 1) by {
            assert s[1..][i - 1..i - 1 + |sub|] == s[i..i + |sub|];
          }
        } else {
          assert StartsWith(s, sub);
        }
      }
      if Includes(s[1..], sub) {
        var i :| OccursAt(s[1..], sub, i);
        assert s[1..][i..i + |sub|] == s[i + 1..i + 1 + |sub|];
        assert OccursAt(s, sub, i + 1);
      }
      if StartsWith(s, sub) {
        assert OccursAt(s, sub, 0);
      }
    } else {
      if exists i :: OccursAt(s, sub, i) {
        var i :| OccursAt(s, sub, i);
        assert |sub| == 0 && s[..0] == sub;
      }
      if StartsWith(s, sub) {
        assert OccursAt(s, sub, 0);
      }
    }
  }

  /** `normalizedQuery`. */
  function NormalizedQuery(query: string): string
  {
    ToLower(Trim(query))
  }

  function IdMatches(normalized: string): Course -> bool
  {
    (course: Course) => Includes(ToLower(course.id), normalized)
  }

  /** `matchingCourses`: no course for an empty query, else the catalog courses whose lower-cased id contains it. */
  function MatchingCourses(catalog: seq<Course>, query: string): (r: seq<Course>)
    ensures NormalizedQuery(query) == [] ==> r == []
    ensures NormalizedQuery(query) != [] ==>
      forall c :: c in r <==> c in catalog && Includes(ToLower(c.id), NormalizedQuery(query))
  {
    var normalized := NormalizedQuery(query);
    if normalized == [] then [] else Filter(catalog, IdMatches(normalized))
  }

  /** An empty or whitespace-only query matches nothing. */
  lemma BlankQueryMatchesNothing(catalog: seq<Course>, query: string)
    requires AllSpace(query)
    ensures MatchingCourses(catalog, query) == []
  {
    TrimAllSpace(query);
  }

  /** Surrounding whitespace does not change the matches. */
  lemma PaddedQuerySameMatches(catalog: seq<Course>, query: string, lead: string, trail: string)
    requires AllSpace(lead) && AllSpace(trail)
    ensures MatchingCourses(catalog, lead + query + trail) == MatchingCourses(catalog, query)
  {
    TrimPadded(query, lead, trail);
  }

  lemma {:induction false} TrimStartPadded(s: string, lead: string)
    requires AllSpace(lead)
    ensures TrimStart(lead + s) == TrimStart(s)
  {
    if lead != [] {
      assert (lead + s)[1..] == lead[1..] + s;
      TrimStartPadded(s, lead[1..]);
    } else {
      assert lead + s == s;
    }
  }

  lemma {:induction false} TrimEndPadded(s: string, trail: string)
    requires AllSpace(trail)
    ensures TrimEnd(s + trail) == TrimEnd(s)
  {
    if trail != [] {
      var t := trail[..|trail| - 1];
      assert (s + trail)[..|s + trail| - 1] == s + t;
      TrimEndPadded(s, t);
    } else {
      assert s + trail == s;
    }
  }

  lemma {:induction false} TrimStartAppend(s: string, trail: string)
    requires !AllSpace(s)
    ensures TrimStart(s + trail) == TrimStart(s) + trail
  {
    if IsJsSpace(s[0]) {
      assert (s + trail)[1..] == s[1..] + trail;
      TrimStartAppend(s[1..], trail);
    }
  }

  lemma TrimPadded(s: string, lead: string, trail: string)
    requires AllSpace(lead) && AllSpace(trail)
    ensures Trim(lead + s + trail) == Trim(s)
  {
    assert lead + s + trail == lead + (s + trail);
    TrimStartPadded(s + trail, lead);
    if AllSpace(s) {
      assert AllSpace(s + trail);
      TrimAllSpace(s + trail);
      TrimAllSpace(s);
    } else {
      TrimStartAppend(s, trail);
      TrimEndPadded(TrimStart(s), trail);
    }
  }

  function NotSelected(keys: seq<string>): Course -> bool
  {
    (course: Course) => Key(course) !in keys
  }

  /** `availableMatches`: the matches whose key is not yet selected. */
  function AvailableMatches(catalog: seq<Course>, query: string, keys: seq<string>): (r: seq<Course>)
    ensures forall c :: c in r <==> c in MatchingCourses(catalog, query) && Key(c) !in keys
  {
    Filter(MatchingCourses(catalog, query), NotSelected(keys))
  }

  /** A course is never both offered as a match and already selected. */
  lemma AvailableDisjointFromSelected(catalog: seq<Course>, query: string, keys: seq<string>, c: Course)
    ensures !(c in AvailableMatches(catalog, query, keys) && c in SelectedCourses(catalog, keys))
  {
  }

  /** Once added, a course is no longer offered, and it appears among the selected courses. */
  lemma AddedNotAvailable(catalog: seq<Course>, query: string, keys: seq<string>, course: Course)
    requires course in catalog
    ensures course !in AvailableMatches(catalog, query, AddCourse(keys, course))
    ensures course in SelectedCourses(catalog, AddCourse(keys, course))
  {
  }

  /** After removal no course with the removed key is selected. */
  lemma RemovedNotSelected(catalog: seq<Course>, keys: seq<string>, course: Course, c: Course)
    requires Key(c) == Key(course)
    ensures c !in SelectedCourses(catalog, RemoveCourse(keys, course))
  {
  }
}
