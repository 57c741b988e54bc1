/**
 Hostname validation of src/validation/openssl_validation.h over the parts of a
 certificate it looks at. Certificate strings may hold NUL; the hostname may not.
 */
module Hostname {
  import opened CTypes
  import opened Wrappers

  datatype Verdict = MatchFound | MatchNotFound | NoSANPresent | MalformedCertificate | Error

  datatype GeneralName = Dns(name: string) | OtherName

  /** None stands for a missing SAN extension, and for a common name that cannot be extracted. */
  datatype Certificate = Certificate(san: Option<seq<GeneralName>>, commonName: Option<string>)

  function ToLower(c: char): char {
    if 'A' <= c <= 'Z' then c + ('a' - 'A') else c
  }

  /** A capital and the small form of the same ASCII letter. */
  predicate LetterCases(upper: char, lower: char) {
    'A' <= upper <= 'Z' && lower as int == upper as int + 32
  }

  /** Strings agree exactly when at every place they are equal or have the two cases of one letter. */
  lemma {:induction false} SameIgnoringCaseIff(a: string, b: string)
    ensures SameIgnoringCase(a, b) <==>
            |a| == |b| &&
            forall i :: 0 <= i < |a| ==> a[i] == b[i] || LetterCases(a[i], b[i]) || LetterCases(b[i], a[i])
  {
    if |a| == |b| {
      forall i | 0 <= i < |a|
        ensures ToLower(a[i]) == ToLower(b[i]) <==> a[i] == b[i] || LetterCases(a[i], b[i]) || LetterCases(b[i], a[i])
      {
        SameCaseIff(a[i], b[i]);
      }
    }
  }

  lemma {:induction false} SameCaseIff(a: char, b: char)
    ensures ToLower(a) == ToLower(b) <==> a == b || LetterCases(a, b) || LetterCases(b, a)
  {
  }

  /** strcasecmp(a, b) == 0 on strings without NUL. */
  predicate SameIgnoringCase(a: string, b: string) {
    |a| == |b| && forall i :: 0 <= i < |a| ==> ToLower(a[i]) == ToLower(b[i])
  }

  function MatchesCommonName(hostname: string, cert: Certificate): Verdict {
    match cert.commonName
    case None => Error
    case Some(cn) =>
      if |cn| != StrLen(cn) then MalformedCertificate
      else if SameIgnoringCase(hostname, cn) then MatchFound
      else MatchNotFound
  }

  /** The name decides the search: it is a DNS name that is malformed or matches. */
  predicate Decides(hostname: string, name: GeneralName) {
    name.Dns? && ('\0' in name.name || SameIgnoringCase(hostname, name.name))
  }

  /** The first deciding name settles the result. */
  ghost predicate SanVerdict(hostname: string, names: seq<GeneralName>, v: Verdict) {
    if exists i :: 0 <= i < |names| && Decides(hostname, names[i]) then
      exists i :: 0 <= i < |names| && Decides(hostname, names[i]) &&
        (forall j :: 0 <= j < i ==> !Decides(hostname, names[j])) &&
        v == if '\0' in names[i].name then MalformedCertificate else MatchFound
    else v == MatchNotFound
  }

  method MatchesSubjectAlternativeName(hostname: string, cert: Certificate) returns (result: Verdict)
    ensures cert.san.None? ==> result == NoSANPresent
    ensures cert.san.Some? ==> SanVerdict(hostname, cert.san.value, result)
  {
    result := MatchNotFound;
    if cert.san.None? {
      return NoSANPresent;
    }
    var names := cert.san.value;
    for i := 0 to |names|
      invariant result == MatchNotFound
      invariant forall j :: 0 <= j < i ==> !Decides(hostname, names[j])
    {
      if names[i].Dns? {
        if |names[i].name| != StrLen(names[i].name) {
          result := MalformedCertificate;
          break;
        } else if SameIgnoringCase(hostname, names[i].name) {
          result := MatchFound;
          break;
        }
      }
    }
  }

  /** Some DNS name equals the host and is NUL-free, and so are all DNS names before it. */
  ghost predicate CleanMatch(hostname: string, names: seq<GeneralName>) {
    exists i :: 0 <= i < |names| && names[i].Dns? && SameIgnoringCase(hostname, names[i].name) &&
      forall j :: 0 <= j <= i && names[j].Dns? ==> '\0' !in names[j].name
  }

  lemma {:induction false} SanMatchIff(hostname: string, names: seq<GeneralName>, v: Verdict)
    requires SanVerdict(hostname, names, v)
    ensures v == MatchFound <==> CleanMatch(hostname, names)
  {
    if v == MatchFound {
      MatchIsClean(hostname, names, v);
    }
    if CleanMatch(hostname, names) {
      CleanIsFound(hostname, names, v);
    }
  }

  lemma {:induction false} MatchIsClean(hostname: string, names: seq<GeneralName>, v: Verdict)
    requires SanVerdict(hostname, names, v) && v == MatchFound
    ensures CleanMatch(hostname, names)
  {
    var i :| 0 <= i < |names| && Decides(hostname, names[i]) && '\0' !in names[i].name &&
             forall j :: 0 <= j < i ==> !Decides(hostname, names[j]);
    forall j | 0 <= j <= i && names[j].Dns? ensures '\0' !in names[j].name {
      assert j < i ==> !Decides(hostname, names[j]);
    }
  }

  lemma {:induction false} CleanIsFound(hostname: string, names: seq<GeneralName>, v: Verdict)
    requires SanVerdict(hostname, names, v) && CleanMatch(hostname, names)
    ensures v == MatchFound
  {
    var m :| 0 <= m < |names| && names[m].Dns? && SameIgnoringCase(hostname, names[m].name) &&
             forall j :: 0 <= j <= m && names[j].Dns? ==> '\0' !in names[j].name;
    assert Decides(hostname, names[m]);
    var i :| 0 <= i < |names| && Decides(hostname, names[i]) &&
             (forall j :: 0 <= j < i ==> !Decides(hostname, names[j])) &&
             v == if '\0' in names[i].name then MalformedCertificate else MatchFound;
    assert i <= m;
  }

  /** Neither malformed nor a match. */
  predicate Passed(hostname: string, name: GeneralName) {
    name.Dns? ==> '\0' !in name.name && !SameIgnoringCase(hostname, name.name)
  }

  /** The list is malformed exactly when a DNS name with a NUL comes before any match; without either there is no match. */
  lemma {:induction false} SanFailIff(hostname: string, names: seq<GeneralName>, v: Verdict)
    requires SanVerdict(hostname, names, v)
    ensures v == MalformedCertificate <==>
            exists i :: 0 <= i < |names| && names[i].Dns? && '\0' in names[i].name &&
              forall j :: 0 <= j < i ==> Passed(hostname, names[j])
    ensures v == MatchNotFound <==> forall i :: 0 <= i < |names| ==> Passed(hostname, names[i])
  {
    forall i | 0 <= i < |names| ensures Decides(hostname, names[i]) <==> !Passed(hostname, names[i]) {
    }
    if i :| 0 <= i < |names| && names[i].Dns? && '\0' in names[i].name && forall j :: 0 <= j < i ==> Passed(hostname, names[j]) {
      assert Decides(hostname, names[i]);
      FirstDecides(hostname, names, v, i);
    }
  }

  lemma {:induction false} FirstDecides(hostname: string, names: seq<GeneralName>, v: Verdict, i: nat)
    requires SanVerdict(hostname, names, v) && i < |names| && Decides(hostname, names[i])
    requires forall j :: 0 <= j < i ==> !Decides(hostname, names[j])
    ensures v == if '\0' in names[i].name then MalformedCertificate else MatchFound
  {
    var m :| 0 <= m < |names| && Decides(hostname, names[m]) &&
             (forall j :: 0 <= j < m ==> !Decides(hostname, names[j])) &&
             v == if '\0' in names[m].name then MalformedCertificate else MatchFound;
    assert m == i;
  }

  /** A NULL hostname or certificate is an error; the CN is consulted only without a SAN. */
  method ValidateHostname(hostname: Option<string>, cert: Option<Certificate>) returns (result: Verdict)
    ensures hostname.None? || cert.None? ==> result == Error
    ensures hostname.Some? && cert.Some? && cert.value.san.Some? ==>
              SanVerdict(hostname.value, cert.value.san.value, result)
    ensures result != NoSANPresent
    ensures result == MatchFound <==>
              hostname.Some? && cert.Some? &&
              match cert.value.san
              case Some(names) => CleanMatch(hostname.value, names)
              case None => cert.value.commonName.Some? && '\0' !in cert.value.commonName.value &&
                           SameIgnoringCase(hostname.value, cert.value.commonName.value)
    ensures hostname.Some? && cert.Some? && cert.value.san.None? ==>
              (result == MalformedCertificate <==>
               cert.value.commonName.Some? && '\0' in cert.value.commonName.value)
    ensures result == Error <==>
              hostname.None? || cert.None? || (cert.value.san.None? && cert.value.commonName.None?)
  {
    if hostname.None? || cert.None? {
      return Error;
    }
    result := MatchesSubjectAlternativeName(hostname.value, cert.value);
    if cert.value.san.Some? {
      SanMatchIff(hostname.value, cert.value.san.value, result);
    }
    if result == NoSANPresent {
      result := MatchesCommonName(hostname.value, cert.value);
    }
  }
}
