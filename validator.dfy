/**
 * The students.json validator.
 *
 * Every entry of the candidate file is checked against the data contract
 * (required fields, the 50-character limit on `about`, an http/https
 * `website`, an integer `year` in [2000, 2100]); every problem is collected,
 * none stops the scan. When a baseline file is given and every entry passed,
 * the candidate may have at most one row more than the baseline and never
 * fewer. Instead of printing and exiting, the validator returns the ordered
 * list of violations; the run passes exactly when that list is empty.
 */
module Validator {
  import opened Json
  import opened Wrappers

  const AboutMaxLength: nat := 50
  const YearMin: int := 2000
  const YearMax: int := 2100
  const RequiredFields: seq<Field> := [Name, Website, Year, About]

  /** What the URL parser (the WHATWG `URL` constructor) makes of a string. */
  datatype UrlParse = Unparseable | Parsed(protocol: string)

  /** A whole parsed JSON file: the top level is an array of entries or it is not. */
  datatype Document = EntryArray(entries: seq<Entry>) | NotAnArray

  datatype FileRole = Candidate | Baseline

  datatype Violation =
    | MustBeArray(file: FileRole)
    | MissingField(entry: nat, field: Field)
    | AboutTooLong(entry: nat, name: Value, limit: nat, actual: nat)
    | InvalidWebsite(entry: nat, name: Value)
    | InvalidYear(entry: nat, name: Value, min: int, max: int)
    | TooManyAdded(added: int)
    | RowsRemoved

  datatype Outcome = Pass | Fail(violations: seq<Violation>)

  // ---------------------------------------------------------------------------
  // Strings as JavaScript sees them

  /** The characters `String.prototype.trim` removes: ECMAScript WhiteSpace and LineTerminator. */
  predicate IsJsWhitespace(c: char)
  {
    c == '\t' || c == '\n' || c == '\U{000B}' || c == '\U{000C}' || c == '\r' ||
    c == ' ' || c == '\U{00A0}' || c == '\U{1680}' || ('\U{2000}' <= c <= '\U{200A}') ||
    c == '\U{2028}' || c == '\U{2029}' || c == '\U{202F}' || c == '\U{205F}' ||
    c == '\U{3000}' || c == '\U{FEFF}'
  }

  predicate IsBlank(s: string)
  {
    forall i :: 0 <= i < |s| ==> IsJsWhitespace(s[i])
  }

  /** `s` with its leading whitespace removed: a suffix of `s` that starts with a non-blank. */
  function TrimStart(s: string): (r: string)
    ensures |r| <= |s| && r == s[|s| - |r|..]
    ensures forall i :: 0 <= i < |s| - |r| ==> IsJsWhitespace(s[i])
    ensures r != [] ==> !IsJsWhitespace(r[0])
  {
    if s != [] && IsJsWhitespace(s[0]) then TrimStart(s[1..]) else s
  }

  /** `s` with its trailing whitespace removed: a prefix of `s` that ends with a non-blank. */
  function TrimEnd(s: string): (r: string)
    ensures |r| <= |s| && r == s[..|r|]
    ensures forall i :: |r| <= i < |s| ==> IsJsWhitespace(s[i])
    ensures r != [] ==> !IsJsWhitespace(r[|r| - 1])
  {
    if s != [] && IsJsWhitespace(s[|s| - 1]) then TrimEnd(s[..|s| - 1]) else s
  }

  /** `s.trim()`: empty exactly when `s` consists of whitespace only. */
  function Trim(s: string): (r: string)
    ensures r == [] <==> IsBlank(s)
    ensures r != [] ==> !IsJsWhitespace(r[0]) && !IsJsWhitespace(r[|r| - 1])
  {
    var t := TrimStart(s);
    var r := TrimEnd(t);
    assert t != [] ==> r != [] by {
      if t != [] {
        assert !IsJsWhitespace(t[0]);
      }
    }
    assert t != [] ==> !IsJsWhitespace(s[|s| - |t|]) by {
      if t != [] {
        assert t[0] == s[|s| - |t|];
      }
    }
    r
  }

  /** `s.length`: the number of UTF-16 code units; a character outside the BMP takes two. */
  function Utf16Length(s: string): (n: nat)
    ensures |s| <= n <= 2 * |s|
    ensures (forall i :: 0 <= i < |s| ==> s[i] as int < 0x1_0000) ==> n == |s|
  {
    if s == [] then 0
    else Utf16Length(s[..|s| - 1]) + (if s[|s| - 1] as int >= 0x1_0000 then 2 else 1)
  }

  // ---------------------------------------------------------------------------
  // The two field predicates

  /**
   * `isValidUrl`: false for anything but a string and for a string that trims
   * to nothing; otherwise true exactly when the parser accepts the string with
   * protocol `http:` or `https:`.
   */
  function IsValidUrl(v: Value, parse: string -> UrlParse): (ok: bool)
    ensures ok <==> v.Str? && Trim(v.s) != [] && (parse(v.s) == Parsed("http:") || parse(v.s) == Parsed("https:"))
  {
    if !v.Str? || IsBlank(v.s) then false
    else
      match parse(v.s)
      case Unparseable => false
      case Parsed(protocol) => protocol == "http:" || protocol == "https:"
  }

  /** `isValidYear`: a number that is an integer and lies in [2000, 2100], both bounds included. */
  function IsValidYear(v: Value): (ok: bool)
    ensures ok <==> v.Int? && 2000 <= v.i <= 2100
  {
    if !(v.Int? || v.NonIntNumber?) || !v.Int? then false
    else YearMin <= v.i && v.i <= YearMax
  }

  // ---------------------------------------------------------------------------
  // Per-entry checks, as specification functions

  predicate IsMissing(v: Value)
  {
    v == Undefined || v == Null
  }

  /** One `MissingField` per field of `fields`, in order, that the entry lacks or has as null. */
  function MissingFields(e: Entry, pos: nat, fields: seq<Field>): (r: seq<Violation>)
    ensures |r| <= |fields|
    ensures forall v :: v in r ==> v.MissingField? && v.entry == pos && v.field in fields && IsMissing(Get(e, v.field))
  {
    if fields == [] then []
    else
      var f := fields[|fields| - 1];
      MissingFields(e, pos, fields[..|fields| - 1]) + (if IsMissing(Get(e, f)) then [MissingField(pos, f)] else [])
  }

  /**
   * The length check on `about`: at most one violation, never for a
   * non-string; a string of more than 50 characters always fails it and one
   * of at most 25 characters never does, whatever planes its characters lie in.
   */
  function AboutCheck(e: Entry, pos: nat): (r: seq<Violation>)
    ensures |r| <= 1
    ensures !Get(e, About).Str? ==> r == []
    ensures Get(e, About).Str? && |Get(e, About).s| > 50 ==> r != []
    ensures Get(e, About).Str? && |Get(e, About).s| <= 25 ==> r == []
    ensures forall v :: v in r ==> v.AboutTooLong? && v.entry == pos && v.limit == 50 && v.actual > 50
  {
    var about := Get(e, About);
    if about.Str? && Utf16Length(about.s) > AboutMaxLength
    then [AboutTooLong(pos, Get(e, Name), AboutMaxLength, Utf16Length(about.s))]
    else []
  }

  /**
   * The URL check on `website`: skipped only when the key is absent; a null
   * or any other non-string value always fails, and a string fails unless it
   * is non-blank and parses with protocol `http:` or `https:`.
   */
  function WebsiteCheck(e: Entry, pos: nat, parse: string -> UrlParse): (r: seq<Violation>)
    ensures Get(e, Website) == Undefined ==> r == []
    ensures Get(e, Website) != Undefined && !Get(e, Website).Str? ==> r == [InvalidWebsite(pos, Get(e, Name))]
    ensures Get(e, Website).Str? ==>
              (r == [] <==> Trim(Get(e, Website).s) != [] &&
                            parse(Get(e, Website).s) in {Parsed("http:"), Parsed("https:")})
    ensures r == [] || r == [InvalidWebsite(pos, Get(e, Name))]
  {
    var website := Get(e, Website);
    if website != Undefined && !IsValidUrl(website, parse) then [InvalidWebsite(pos, Get(e, Name))] else []
  }

  /** The year check: skipped only when the key is absent; reports nothing exactly for an integer in [2000, 2100]. */
  function YearCheck(e: Entry, pos: nat): (r: seq<Violation>)
    ensures r == [] <==> Get(e, Year) == Undefined || (Get(e, Year).Int? && 2000 <= Get(e, Year).i <= 2100)
    ensures r == [] || r == [InvalidYear(pos, Get(e, Name), 2000, 2100)]
  {
    var year := Get(e, Year);
    if year != Undefined && !IsValidYear(year) then [InvalidYear(pos, Get(e, Name), YearMin, YearMax)] else []
  }

  /** A violation about one entry, as opposed to one about a whole file. */
  predicate OnEntry(v: Violation)
  {
    v.MissingField? || v.AboutTooLong? || v.InvalidWebsite? || v.InvalidYear?
  }

  /**
   * Everything reported about the entry at 1-based position `pos`, in the
   * order the checks run: at most seven violations, all about that entry.
   */
  function EntryViolations(e: Entry, pos: nat, parse: string -> UrlParse): (r: seq<Violation>)
    ensures |r| <= 7
    ensures forall v :: v in r ==> OnEntry(v) && v.entry == pos
  {
    MissingFields(e, pos, RequiredFields) + AboutCheck(e, pos) + WebsiteCheck(e, pos, parse) + YearCheck(e, pos)
  }

  /** The reports of the entries, one list per entry, at 1-based positions. */
  function Reports(entries: seq<Entry>, parse: string -> UrlParse): seq<seq<Violation>>
  {
    seq(|entries|, i requires 0 <= i < |entries| => EntryViolations(entries[i], i + 1, parse))
  }

  /** The lists of `parts` one after the other. */
  function Concat(parts: seq<seq<Violation>>): seq<Violation>
  {
    if parts == [] then [] else Concat(parts[..|parts| - 1]) + parts[|parts| - 1]
  }

  /** Everything reported about a whole array of entries, entry after entry; each violation names an entry of the array. */
  function EntriesViolations(entries: seq<Entry>, parse: string -> UrlParse): (r: seq<Violation>)
    ensures forall v :: v in r ==> OnEntry(v) && 1 <= v.entry <= |entries|
  {
    ReportsAboutEntries(entries, parse);
    Concat(Reports(entries, parse))
  }

  /**
   * The data contract of one entry, stated on its own. A conforming entry has
   * a non-blank string website, an integer year in range and at most 50
   * characters of `about`.
   */
  predicate Conforms(e: Entry, parse: string -> UrlParse)
    ensures Conforms(e, parse) ==>
              Get(e, Website).Str? && !IsBlank(Get(e, Website).s) &&
              Get(e, Year).Int? && YearMin <= Get(e, Year).i <= YearMax &&
              (Get(e, About).Str? ==> |Get(e, About).s| <= 50)
  {
    !IsMissing(Get(e, Name)) && !IsMissing(Get(e, Website)) &&
    !IsMissing(Get(e, Year)) && !IsMissing(Get(e, About)) &&
    (Get(e, About).Str? ==> Utf16Length(Get(e, About).s) <= 50) &&
    IsValidUrl(Get(e, Website), parse) &&
    IsValidYear(Get(e, Year))
  }

  // ---------------------------------------------------------------------------
  // Change policy and the whole run

  /** The baseline check on `added = candidate length - baseline length`. */
  function ChangePolicy(added: int): (r: Option<Violation>)
    ensures r == None <==> 0 <= added <= 1
  {
    if added > 1 then Some(TooManyAdded(added))
    else if added < 0 then Some(RowsRemoved)
    else None
  }

  /**
   * The whole validation run. A candidate that is not an array is fatal on its
   * own. Entry violations end the run before the baseline is read, so the
   * change policy is consulted only when every entry passed.
   */
  function Validate(candidate: Document, baseline: Option<Document>, parse: string -> UrlParse): (r: Outcome)
    ensures r.Fail? ==> r.violations != []
  {
    match candidate
    case NotAnArray => Fail([MustBeArray(Candidate)])
    case EntryArray(entries) =>
      var found := EntriesViolations(entries, parse);
      if found != [] then Fail(found)
      else
        match baseline
        case None => Pass
        case Some(NotAnArray) => Fail([MustBeArray(Baseline)])
        case Some(EntryArray(base)) =>
          match ChangePolicy(|entries| - |base|)
          case None => Pass
          case Some(v) => Fail([v])
  }

  // ---------------------------------------------------------------------------
  // The imperative validator

  /**
   * The `forEach` callback of `validateEntries` for the entry at 1-based
   * position `pos`: the loop over the required fields, then the length, URL
   * and year checks, each appending what it finds.
   */
  method CheckEntry(entry: Entry, pos: nat, parse: string -> UrlParse) returns (found: seq<Violation>)
    ensures found == EntryViolations(entry, pos, parse)
    ensures found == [] <==> Conforms(entry, parse)
  {
    found := [];
    var k := 0;
    while k < |RequiredFields|
      invariant 0 <= k <= |RequiredFields|
      invariant found == MissingFields(entry, pos, RequiredFields[..k])
    {
      var field := RequiredFields[k];
      if Get(entry, field) == Undefined || Get(entry, field) == Null {
        found := found + [MissingField(pos, field)];
      }
      assert RequiredFields[..k + 1][..k] == RequiredFields[..k];
      k := k + 1;
    }
    assert RequiredFields[..k] == RequiredFields;
    ghost var missing := found;
    var about := Get(entry, About);
    if about.Str? && Utf16Length(about.s) > AboutMaxLength {
      found := found + [AboutTooLong(pos, Get(entry, Name), AboutMaxLength, Utf16Length(about.s))];
    }
    assert found == missing + AboutCheck(entry, pos);
    ghost var aboutDone := found;
    if Get(entry, Website) != Undefined && !IsValidUrl(Get(entry, Website), parse) {
      found := found + [InvalidWebsite(pos, Get(entry, Name))];
    }
    assert found == aboutDone + WebsiteCheck(entry, pos, parse);
    ghost var websiteDone := found;
    if Get(entry, Year) != Undefined && !IsValidYear(Get(entry, Year)) {
      found := found + [InvalidYear(pos, Get(entry, Name), YearMin, YearMax)];
    }
    assert found == websiteDone + YearCheck(entry, pos);
    EntryViolationsEmptyIff(entry, pos, parse);
  }

  /**
   * `validateEntries` on an array: every entry is checked, nothing stops the
   * scan, and `failed` records whether anything was reported.
   */
  method ValidateEntries(entries: seq<Entry>, parse: string -> UrlParse) returns (violations: seq<Violation>, failed: bool)
    ensures violations == EntriesViolations(entries, parse)
    ensures failed <==> violations != []
    ensures !failed <==> forall i :: 0 <= i < |entries| ==> Conforms(entries[i], parse)
  {
    violations, failed := [], false;
    var i := 0;
    while i < |entries|
      invariant 0 <= i <= |entries|
      invariant violations == EntriesViolations(entries[..i], parse)
      invariant failed <==> violations != []
    {
      var found := CheckEntry(entries[i], i + 1, parse);
      if found != [] {
        failed := true;
      }
      violations := violations + found;
      ReportsSnoc(entries, parse, i);
      i := i + 1;
    }
    assert entries[..i] == entries;
    AllConformIffNoViolations(entries, parse);
  }

  /** The script's flow from the candidate check to the end of the baseline block. */
  method RunValidation(candidate: Document, baseline: Option<Document>, parse: string -> UrlParse) returns (outcome: Outcome)
    ensures outcome == Validate(candidate, baseline, parse)
  {
    if candidate.NotAnArray? {
      return Fail([MustBeArray(Candidate)]);
    }
    var students := candidate.entries;
    var violations, failed := ValidateEntries(students, parse);
    if failed {
      return Fail(violations);
    }
    if baseline.Some? {
      var base := baseline.value;
      if base.NotAnArray? {
        return Fail([MustBeArray(Baseline)]);
      }
      var added := |students| - |base.entries|;
      if added > 1 {
        return Fail([TooManyAdded(added)]);
      }
      if added < 0 {
        return Fail([RowsRemoved]);
      }
    }
    outcome := Pass;
  }

  // ---------------------------------------------------------------------------
  // Properties

  lemma {:induction false} MissingFieldsEmptyIff(e: Entry, pos: nat, fields: seq<Field>)
    ensures MissingFields(e, pos, fields) == [] <==> forall f :: f in fields ==> !IsMissing(Get(e, f))
  {
    if fields != [] {
      var init, last := fields[..|fields| - 1], fields[|fields| - 1];
      MissingFieldsEmptyIff(e, pos, init);
      assert forall f :: f in fields <==> f in init || f == last by {
        assert fields == init + [last];
      }
    }
  }

  /** A field is reported as missing exactly when it is listed and undefined or null; nothing else is reported. */
  lemma {:induction false} MissingFieldsMember(e: Entry, pos: nat, fields: seq<Field>, f: Field)
    ensures MissingField(pos, f) in MissingFields(e, pos, fields) <==> f in fields && IsMissing(Get(e, f))
    ensures forall v :: v in MissingFields(e, pos, fields) ==> v.MissingField? && v.entry == pos && v.field in fields
  {
    if fields != [] {
      var init := fields[..|fields| - 1];
      MissingFieldsMember(e, pos, init, f);
      assert fields == init + [fields[|fields| - 1]];
    }
  }

  /**
   * Over a duplicate-free list of fields no violation is reported twice, so,
   * with `MissingFieldsMember`, each undefined or null field is reported
   * exactly once.
   */
  lemma {:induction false} MissingFieldsNoRepeats(e: Entry, pos: nat, fields: seq<Field>)
    requires forall i, j :: 0 <= i < j < |fields| ==> fields[i] != fields[j]
    ensures var found := MissingFields(e, pos, fields);
            forall i, j :: 0 <= i < j < |found| ==> found[i] != found[j]
  {
    if fields != [] {
      var init := fields[..|fields| - 1];
      var last := fields[|fields| - 1];
      var previous := MissingFields(e, pos, init);
      MissingFieldsNoRepeats(e, pos, init);
      MissingFieldsMember(e, pos, init, last);
      forall i | 0 <= i < |init| ensures init[i] != last {
        assert init[i] == fields[i];
      }
      assert MissingField(pos, last) !in previous;
    }
  }

  /** An entry conforms to the contract exactly when checking it reports nothing. */
  lemma EntryViolationsEmptyIff(e: Entry, pos: nat, parse: string -> UrlParse)
    ensures EntryViolations(e, pos, parse) == [] <==> Conforms(e, parse)
  {
    MissingFieldsEmptyIff(e, pos, RequiredFields);
    var missing, about, website, year :=
      MissingFields(e, pos, RequiredFields), AboutCheck(e, pos), WebsiteCheck(e, pos, parse), YearCheck(e, pos);
    assert EntryViolations(e, pos, parse) == [] <==> missing == [] && about == [] && website == [] && year == [] by {
      assert |EntryViolations(e, pos, parse)| == |missing| + |about| + |website| + |year|;
    }
    assert missing == [] <==> forall f :: f in RequiredFields ==> !IsMissing(Get(e, f));
  }

  /** Appending one entry appends its report. */
  lemma ReportsSnoc(entries: seq<Entry>, parse: string -> UrlParse, i: nat)
    requires i < |entries|
    ensures EntriesViolations(entries[..i + 1], parse) ==
            EntriesViolations(entries[..i], parse) + EntryViolations(entries[i], i + 1, parse)
  {
    var parts := Reports(entries[..i + 1], parse);
    assert parts[..i] == Reports(entries[..i], parse);
  }

  lemma {:induction false} ConcatEmptyIff(parts: seq<seq<Violation>>)
    ensures Concat(parts) == [] <==> forall i :: 0 <= i < |parts| ==> parts[i] == []
  {
    if parts != [] {
      var init := parts[..|parts| - 1];
      ConcatEmptyIff(init);
      assert forall i :: 0 <= i < |init| ==> init[i] == parts[i];
    }
  }

  lemma {:induction false} ConcatMember(parts: seq<seq<Violation>>, v: Violation)
    ensures v in Concat(parts) <==> exists i :: 0 <= i < |parts| && v in parts[i]
  {
    if parts != [] {
      var n := |parts|;
      var init := parts[..n - 1];
      ConcatMember(init, v);
      if v in Concat(init) {
        var i :| 0 <= i < |init| && v in init[i];
        assert init[i] == parts[i];
      }
      if exists i :: 0 <= i < n && v in parts[i] {
        var i :| 0 <= i < n && v in parts[i];
        if i < n - 1 {
          assert init[i] == parts[i];
        }
      }
    }
  }

  lemma {:induction false} ConcatOnEntries(parts: seq<seq<Violation>>, n: nat)
    requires forall i, v :: 0 <= i < |parts| && v in parts[i] ==> OnEntry(v) && 1 <= v.entry <= n
    ensures forall v :: v in Concat(parts) ==> OnEntry(v) && 1 <= v.entry <= n
  {
    if parts != [] {
      var init := parts[..|parts| - 1];
      assert forall i :: 0 <= i < |init| ==> init[i] == parts[i];
      ConcatOnEntries(init, n);
    }
  }

  lemma ReportsAboutEntries(entries: seq<Entry>, parse: string -> UrlParse)
    ensures forall v :: v in Concat(Reports(entries, parse)) ==> OnEntry(v) && 1 <= v.entry <= |entries|
  {
    var parts := Reports(entries, parse);
    forall i, v | 0 <= i < |parts| && v in parts[i] ensures OnEntry(v) && 1 <= v.entry <= |entries| {
      ReportAt(entries, parse, i);
    }
    ConcatOnEntries(parts, |entries|);
  }

  lemma EachReportEmptyIffConforms(entries: seq<Entry>, parse: string -> UrlParse)
    ensures forall i :: 0 <= i < |entries| ==> (Reports(entries, parse)[i] == [] <==> Conforms(entries[i], parse))
  {
    forall i | 0 <= i < |entries|
      ensures Reports(entries, parse)[i] == [] <==> Conforms(entries[i], parse)
    {
      EntryViolationsEmptyIff(entries[i], i + 1, parse);
    }
  }

  /** The array passes the per-entry checks exactly when every entry conforms. */
  lemma AllConformIffNoViolations(entries: seq<Entry>, parse: string -> UrlParse)
    ensures EntriesViolations(entries, parse) == [] <==> forall i :: 0 <= i < |entries| ==> Conforms(entries[i], parse)
  {
    EachReportEmptyIffConforms(entries, parse);
    ConcatEmptyIff(Reports(entries, parse));
  }

  /**
   * Nothing is short-circuited: a violation is reported for the array exactly
   * when it is reported for one of its entries, at that entry's 1-based position.
   */
  lemma ReportsEveryProblem(entries: seq<Entry>, parse: string -> UrlParse, v: Violation)
    ensures v in EntriesViolations(entries, parse) <==>
            exists i :: 0 <= i < |entries| && v in EntryViolations(entries[i], i + 1, parse)
  {
    ConcatMember(Reports(entries, parse), v);
    if exists i :: 0 <= i < |entries| && v in EntryViolations(entries[i], i + 1, parse) {
      var i :| 0 <= i < |entries| && v in EntryViolations(entries[i], i + 1, parse);
      ReportAt(entries, parse, i);
    }
    if exists i :: 0 <= i < |entries| && v in Reports(entries, parse)[i] {
      var i :| 0 <= i < |entries| && v in Reports(entries, parse)[i];
      ReportAt(entries, parse, i);
    }
  }

  /** The report at index `i` is the report of entry `i` at 1-based position `i + 1`. */
  lemma ReportAt(entries: seq<Entry>, parse: string -> UrlParse, i: nat)
    requires i < |entries|
    ensures |Reports(entries, parse)| == |entries|
    ensures Reports(entries, parse)[i] == EntryViolations(entries[i], i + 1, parse)
  {
  }

  /** The entry `{name: "A"}` yields exactly three missing-field violations and nothing else. */
  lemma NameOnlyEntry(parse: string -> UrlParse)
    ensures EntryViolations(map[Name := Str("A")], 1, parse) ==
            [MissingField(1, Website), MissingField(1, Year), MissingField(1, About)]
  {
    var e: Entry := map[Name := Str("A")];
    assert [Name][..0] == [];
    assert MissingFields(e, 1, [Name]) == [];
    assert [Name, Website][..1] == [Name];
    assert MissingFields(e, 1, [Name, Website]) == [MissingField(1, Website)];
    assert [Name, Website, Year][..2] == [Name, Website];
    assert MissingFields(e, 1, [Name, Website, Year]) == [MissingField(1, Website), MissingField(1, Year)];
    assert RequiredFields[..3] == [Name, Website, Year];
    assert AboutCheck(e, 1) == [] && WebsiteCheck(e, 1, parse) == [] && YearCheck(e, 1) == [];
  }

  /**
   * An `about` string longer than 50 UTF-16 units is reported once, with the
   * limit 50 and its actual length; at 50 or below, or when `about` is not a
   * string, no length violation is reported for the entry.
   */
  lemma AboutLengthReported(e: Entry, pos: nat, parse: string -> UrlParse, v: Violation)
    requires v.AboutTooLong?
    ensures v in EntryViolations(e, pos, parse) <==>
            Get(e, About).Str? && Utf16Length(Get(e, About).s) > 50 &&
            v == AboutTooLong(pos, Get(e, Name), 50, Utf16Length(Get(e, About).s))
  {
    MissingFieldsMember(e, pos, RequiredFields, About);
  }

  /**
   * The website and year checks skip only `undefined`: a null field is
   * reported both as missing and as invalid, an absent one only as missing.
   */
  lemma NullVersusAbsentField(e: Entry, pos: nat, parse: string -> UrlParse)
    ensures Get(e, Website) == Null ==>
              MissingField(pos, Website) in EntryViolations(e, pos, parse) &&
              InvalidWebsite(pos, Get(e, Name)) in EntryViolations(e, pos, parse)
    ensures Get(e, Website) == Undefined ==>
              MissingField(pos, Website) in EntryViolations(e, pos, parse) &&
              forall v :: v in EntryViolations(e, pos, parse) ==> !v.InvalidWebsite?
    ensures Get(e, Year) == Null ==>
              MissingField(pos, Year) in EntryViolations(e, pos, parse) &&
              InvalidYear(pos, Get(e, Name), 2000, 2100) in EntryViolations(e, pos, parse)
    ensures Get(e, Year) == Undefined ==>
              MissingField(pos, Year) in EntryViolations(e, pos, parse) &&
              forall v :: v in EntryViolations(e, pos, parse) ==> !v.InvalidYear?
  {
    MissingFieldsMember(e, pos, RequiredFields, Website);
    MissingFieldsMember(e, pos, RequiredFields, Year);
  }

  /**
   * The run passes exactly when the candidate is an array of conforming
   * entries and, when a baseline is given, the baseline is an array and the
   * candidate has the same number of rows or one more.
   */
  lemma ValidatePassIff(candidate: Document, baseline: Option<Document>, parse: string -> UrlParse)
    ensures Validate(candidate, baseline, parse) == Pass <==>
            candidate.EntryArray? &&
            (forall i :: 0 <= i < |candidate.entries| ==> Conforms(candidate.entries[i], parse)) &&
            (baseline.Some? ==>
               baseline.value.EntryArray? &&
               0 <= |candidate.entries| - |baseline.value.entries| <= 1)
  {
    if candidate.EntryArray? {
      AllConformIffNoViolations(candidate.entries, parse);
    }
  }

  /**
   * With conforming entries and an array baseline, only the two lengths
   * matter: more than one added row is reported with the count added, fewer
   * rows are reported as removed rows, and the row contents are never compared.
   */
  lemma ChangePolicyOnLengths(entries: seq<Entry>, base: seq<Entry>, parse: string -> UrlParse)
    requires forall i :: 0 <= i < |entries| ==> Conforms(entries[i], parse)
    ensures |entries| > |base| + 1 ==>
              Validate(EntryArray(entries), Some(EntryArray(base)), parse) == Fail([TooManyAdded(|entries| - |base|)])
    ensures |entries| < |base| ==>
              Validate(EntryArray(entries), Some(EntryArray(base)), parse) == Fail([RowsRemoved])
    ensures |base| <= |entries| <= |base| + 1 ==>
              Validate(EntryArray(entries), Some(EntryArray(base)), parse) == Pass
  {
    AllConformIffNoViolations(entries, parse);
  }

  /**
   * A fatal shape error stands alone: a non-array candidate gives one
   * violation and no entry is checked; a non-array baseline, once the entries
   * passed, gives one violation too. Entry violations are reported without
   * the baseline ever being consulted.
   */
  lemma ShapeAndOrder(candidate: Document, baseline: Option<Document>, parse: string -> UrlParse)
    ensures candidate.NotAnArray? ==> Validate(candidate, baseline, parse) == Fail([MustBeArray(Candidate)])
    ensures candidate.EntryArray? && EntriesViolations(candidate.entries, parse) != [] ==>
              Validate(candidate, baseline, parse) == Fail(EntriesViolations(candidate.entries, parse))
    ensures candidate.EntryArray? && baseline == Some(NotAnArray) &&
            (forall i :: 0 <= i < |candidate.entries| ==> Conforms(candidate.entries[i], parse)) ==>
              Validate(candidate, baseline, parse) == Fail([MustBeArray(Baseline)])
  {
    if candidate.EntryArray? {
      AllConformIffNoViolations(candidate.entries, parse);
    }
  }
}
