/**
 The vocabulary of the Safe Harbor de-identification method (section 164.514(b)(2)
 of 45 CFR) as the validator sees it: identifier categories, header labels with an
 edit-distance tolerance, value patterns, the ordered taxonomy of attributes, the
 warnings the validator reports and the tabular data handle it scans.

 The label and pattern matchers themselves are not modelled: a `Matcher` supplies
 them as two arbitrary total predicates, so everything proved about the validator
 holds for every possible matcher.
 */
module Hipaa {
  import opened Wrappers

  /** The identifier categories the taxonomy refers to. */
  datatype Identifier =
    | Name
    | GeographicSubdivision
    | Date
    | TelephoneNumber
    | EmailAddress
    | SocialSecurityNumber
    | AccountNumber
    | CertificateNumber
    | VehicleIdentifier
    | DeviceIdentifier
    | Url
    | Ip

  /** An expected column header and the edit distance it tolerates. */
  datatype Label = Label(text: string, tolerance: nat)

  /** Tolerance of a label built from its text alone (an exact match). */
  const DefaultTolerance: nat := 0

  function Exact(text: string): Label
  {
    Label(text, DefaultTolerance)
  }

  /** The value-shape recognisers; which regular expression each stands for is not modelled. */
  datatype PatternKind =
    | NamePattern
    | ZipPattern
    | DatePattern
    | EMailPattern
    | SsnPattern
    | IbanPattern
    | VinPattern
    | UrlPattern
    | IpPattern

  /** One entry of the taxonomy: a category, its header labels and an optional value pattern. */
  datatype Attribute = Attribute(identifier: Identifier, labels: seq<Label>, pattern: Option<PatternKind>)

  /** The taxonomy, in the order the validator consults it. */
  function Attributes(): seq<Attribute>
  {
    [ Attribute(Name, [Label("name", 1)], Some(NamePattern)),
      Attribute(GeographicSubdivision,
                [Label("address", 1), Exact("city"), Label("country", 1), Label("precinct", 1)], None),
      Attribute(GeographicSubdivision, [Exact("zip"), Label("zip code", 1)], Some(ZipPattern)),
      Attribute(Date,
                [Label("age", 1), Label("year", 1), Label("birth date", 2), Label("admission date", 2),
                 Label("discharge date", 2), Label("death date", 2), Label("date", 1)], Some(DatePattern)),
      // The second label is the literal text "telephone, 1" with the default tolerance.
      Attribute(TelephoneNumber, [Label("number", 1), Exact("telephone, 1"), Exact("fax"), Label("phone", 1)], None),
      Attribute(EmailAddress, [Exact("email"), Exact("E-Mail address")], Some(EMailPattern)),
      Attribute(SocialSecurityNumber, [Exact("SSN"), Label("Social Security Number", 1)], Some(SsnPattern)),
      Attribute(AccountNumber, [Exact("IBAN"), Label("account number", 1)], Some(IbanPattern)),
      Attribute(CertificateNumber, [Label("license", 1), Label("certificate", 1)], None),
      Attribute(VehicleIdentifier, [Exact("VIN"), Label("vehicle identification number", 2)], Some(VinPattern)),
      Attribute(DeviceIdentifier, [Label("serial number", 1)], None),
      Attribute(Url, [Exact("url"), Label("domain", 1)], Some(UrlPattern)),
      Attribute(Ip, [Exact("IP"), Exact("IPv4"), Exact("IPv6"), Label("IP address", 1)], Some(IpPattern))
    ]
  }

  /** What the validator reports: a column, a row (0 for the header), a category and the text that matched. */
  datatype Warning = Warning(column: int, row: int, identifier: Identifier, value: string)

  /** The two attribute tests the validator relies on, left abstract. */
  datatype Matcher = Matcher(matchesLabel: (Attribute, string) -> bool, matchesPattern: (Attribute, string) -> bool)

  /**
   A data handle: the column headers and the row iterator's elements. The iterator
   yields the header row first, so `rows[0]` is never scanned and `rows[r]` is data row `r`.
   */
  datatype Handle = Handle(header: seq<string>, rows: seq<seq<string>>)

  /**
   Every data row has a cell for every column. This is more than the validator needs: it
   reads only the cells of columns still listed, in rows it examines, and throws when one
   of those is missing.
   */
  predicate WellFormed(h: Handle)
  {
    forall r :: 1 <= r < |h.rows| ==> |h.rows[r]| >= |h.header|
  }

  /** A header is claimed by a taxonomy when some attribute's labels accept it. */
  predicate HeaderMatched(m: Matcher, attrs: seq<Attribute>, h: string)
  {
    exists k :: 0 <= k < |attrs| && m.matchesLabel(attrs[k], h)
  }

  /** Some attribute of category `id` has a label that accepts the title `h`. */
  predicate Claims(m: Matcher, attrs: seq<Attribute>, h: string, id: Identifier)
  {
    exists k :: 0 <= k < |attrs| && m.matchesLabel(attrs[k], h) && attrs[k].identifier == id
  }

  /** The matcher says no to the pattern of an attribute that has none. */
  ghost predicate PatternlessNeverMatch(m: Matcher)
  {
    forall a: Attribute, v: string :: a.pattern.None? ==> !m.matchesPattern(a, v)
  }

  /** Index of the first attribute of `attrs` whose pattern accepts `v`, if any. */
  function FirstPatternMatch(m: Matcher, attrs: seq<Attribute>, v: string): (r: Option<nat>)
    ensures r.Some? ==> r.value < |attrs| && m.matchesPattern(attrs[r.value], v)
    ensures r.Some? ==> forall j :: 0 <= j < r.value ==> !m.matchesPattern(attrs[j], v)
    ensures r.None? <==> forall j :: 0 <= j < |attrs| ==> !m.matchesPattern(attrs[j], v)
  {
    if attrs == [] then None
    else if m.matchesPattern(attrs[0], v) then Some(0)
    else
      match FirstPatternMatch(m, attrs[1..], v)
      case None => None
      case Some(k) => Some(k + 1)
  }

  /** Shape of the taxonomy: thirteen entries, and exactly four of them have no value pattern. */
  lemma TaxonomyShape()
    ensures |Attributes()| == 13
    ensures forall k :: 0 <= k < 13 ==>
      (Attributes()[k].pattern.None? <==> k == 1 || k == 4 || k == 8 || k == 10)
    ensures forall k :: 0 <= k < 13 && Attributes()[k].pattern.Some? ==>
      Attributes()[k].identifier !in {TelephoneNumber, CertificateNumber, DeviceIdentifier}
    ensures Attributes()[4].labels[1] == Label("telephone, 1", 0)
  {
  }

  /**
   Under a matcher that never matches a missing pattern, a cell can only be attributed
   to a category that has a value pattern: telephone, certificate and device numbers
   are recognised by header only.
   */
  lemma PatternMatchHasPattern(m: Matcher, v: string)
    requires PatternlessNeverMatch(m)
    ensures FirstPatternMatch(m, Attributes(), v).Some? ==>
      var a := Attributes()[FirstPatternMatch(m, Attributes(), v).value];
      a.pattern.Some? && a.identifier !in {TelephoneNumber, CertificateNumber, DeviceIdentifier}
  {
    TaxonomyShape();
  }
}
