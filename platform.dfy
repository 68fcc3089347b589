/**
 The runtime facilities the registration service borrows from the .NET base
 class library. Their Unicode tables and parsing rules are not part of this
 model: each facility is a total function that the service is given, so every
 property proved about the service holds whatever those tables say.
 */
module Platform {

  /** The character, string and mail-address services the service calls. */
  datatype Runtime = Runtime(
    // char.IsLetter
    isLetter: char -> bool,
    // char.IsDigit
    isDigit: char -> bool,
    // the simple upper-case mapping that ordinal ignore-case comparison applies per character
    toUpperInvariant: char -> char,
    // the per-character mapping behind the culture-sensitive string.ToLower
    toLower: char -> char,
    // whether `new MailAddress(s)` returns rather than throwing a FormatException
    isMailAddress: string -> bool
  )

  /** string.ToLower: every character mapped through the culture's lower-case mapping. */
  function ToLower(rt: Runtime, s: string): (r: string)
    ensures |r| == |s|
    ensures forall i :: 0 <= i < |s| ==> r[i] == rt.toLower(s[i])
  {
    if s == [] then [] else [rt.toLower(s[0])] + ToLower(rt, s[1..])
  }

  /**
   string.Equals(a, b, StringComparison.OrdinalIgnoreCase): the two strings have
   the same length and agree at every position once both characters are mapped
   to upper case.
   */
  predicate EqualsIgnoreCase(rt: Runtime, a: string, b: string)
  {
    |a| == |b| && forall i :: 0 <= i < |a| ==> rt.toUpperInvariant(a[i]) == rt.toUpperInvariant(b[i])
  }

  lemma EqualsIgnoreCaseReflexive(rt: Runtime, a: string)
    ensures EqualsIgnoreCase(rt, a, a)
  {
  }

  lemma EqualsIgnoreCaseSymmetric(rt: Runtime, a: string, b: string)
    requires EqualsIgnoreCase(rt, a, b)
    ensures EqualsIgnoreCase(rt, b, a)
  {
  }

  lemma EqualsIgnoreCaseTransitive(rt: Runtime, a: string, b: string, c: string)
    requires EqualsIgnoreCase(rt, a, b) && EqualsIgnoreCase(rt, b, c)
    ensures EqualsIgnoreCase(rt, a, c)
  {
  }
}
