/**
 * ASCII case mapping and the column-name normaliser of the dashboard:
 * Python's `str.lower`, `str.upper`, `str.capitalize` and the rename
 * `col.lower().replace(' ', '_')`.
 */
module Text {

  predicate IsUpper(c: char) { 'A' <= c <= 'Z' }

  predicate IsLower(c: char) { 'a' <= c <= 'z' }

  /** No upper-case ASCII letter occurs in `s`. */
  predicate NoUpper(s: string) { forall i :: 0 <= i < |s| ==> !IsUpper(s[i]) }

  /** No lower-case ASCII letter occurs in `s`. */
  predicate NoLower(s: string) { forall i :: 0 <= i < |s| ==> !IsLower(s[i]) }

  /** No space occurs in `s`. */
  predicate NoSpace(s: string) { forall i :: 0 <= i < |s| ==> s[i] != ' ' }

  /** `l` is the lower-case form of the upper-case letter `u`. */
  predicate SameLetter(u: char, l: char) {
    IsUpper(u) && IsLower(l) && l as int - 'a' as int == u as int - 'A' as int
  }

  function LowerChar(c: char): (r: char)
    ensures !IsUpper(r)
    ensures IsUpper(c) ==> SameLetter(c, r)
    ensures !IsUpper(c) ==> r == c
  {
    if IsUpper(c) then (c as int - 'A' as int + 'a' as int) as char else c
  }

  function UpperChar(c: char): (r: char)
    ensures !IsLower(r)
    ensures IsLower(c) ==> SameLetter(r, c)
    ensures !IsLower(c) ==> r == c
  {
    if IsLower(c) then (c as int - 'a' as int + 'A' as int) as char else c
  }

  /** `str.lower` on ASCII text. */
  function Lower(s: string): (r: string)
    ensures |r| == |s| && NoUpper(r)
    ensures forall i :: 0 <= i < |s| && IsUpper(s[i]) ==> SameLetter(s[i], r[i])
    ensures forall i :: 0 <= i < |s| && !IsUpper(s[i]) ==> r[i] == s[i]
  {
    seq(|s|, i requires 0 <= i < |s| => LowerChar(s[i]))
  }

  /** `str.upper` on ASCII text. */
  function Upper(s: string): (r: string)
    ensures |r| == |s| && NoLower(r)
    ensures forall i :: 0 <= i < |s| && IsLower(s[i]) ==> SameLetter(r[i], s[i])
    ensures forall i :: 0 <= i < |s| && !IsLower(s[i]) ==> r[i] == s[i]
  {
    seq(|s|, i requires 0 <= i < |s| => UpperChar(s[i]))
  }

  /** `str.capitalize` on ASCII text: first character upper-cased, the rest lower-cased. */
  function Capitalize(s: string): (r: string)
    ensures |r| == |s|
    ensures |s| > 0 ==> !IsLower(r[0])
    ensures |s| > 0 && IsLower(s[0]) ==> SameLetter(r[0], s[0])
    ensures |s| > 0 && !IsLower(s[0]) ==> r[0] == s[0]
    ensures forall i :: 1 <= i < |s| ==> !IsUpper(r[i])
    ensures forall i :: 1 <= i < |s| && IsUpper(s[i]) ==> SameLetter(s[i], r[i])
    ensures forall i :: 1 <= i < |s| && !IsUpper(s[i]) ==> r[i] == s[i]
  {
    if |s| == 0 then "" else Upper(s[..1]) + Lower(s[1..])
  }

  /** `s.replace(' ', '_')`. */
  function ReplaceSpaces(s: string): (r: string)
    ensures |r| == |s| && NoSpace(r)
    ensures forall i :: 0 <= i < |s| && s[i] == ' ' ==> r[i] == '_'
    ensures forall i :: 0 <= i < |s| && s[i] != ' ' ==> r[i] == s[i]
  {
    seq(|s|, i requires 0 <= i < |s| => if s[i] == ' ' then '_' else s[i])
  }

  /** A column name as the dashboard stores it after the rename. */
  predicate IsNormalized(s: string) { NoSpace(s) && NoUpper(s) }

  /** The rename applied to one column name: `col.lower().replace(' ', '_')`. */
  function NormalizeName(s: string): (r: string)
    ensures |r| == |s| && IsNormalized(r)
    ensures forall i :: 0 <= i < |s| && s[i] == ' ' ==> r[i] == '_'
    ensures forall i :: 0 <= i < |s| && IsUpper(s[i]) ==> SameLetter(s[i], r[i])
    ensures forall i :: 0 <= i < |s| && s[i] != ' ' && !IsUpper(s[i]) ==> r[i] == s[i]
  {
    var r := ReplaceSpaces(Lower(s));
    assert NoUpper(r) by {
      forall i | 0 <= i < |r| ensures !IsUpper(r[i]) {
        assert r[i] == '_' || r[i] == Lower(s)[i];
      }
    }
    r
  }

  /** The rename of the whole header, position for position. */
  function NormalizeColumns(cols: seq<string>): (r: seq<string>)
    ensures |r| == |cols|
    ensures forall i :: 0 <= i < |cols| ==> r[i] == NormalizeName(cols[i])
  {
    seq(|cols|, i requires 0 <= i < |cols| => NormalizeName(cols[i]))
  }

  /** A name is left alone by the rename exactly when it is already normalised. */
  lemma NormalizeFixedPoint(s: string)
    ensures NormalizeName(s) == s <==> IsNormalized(s)
  {
    if IsNormalized(s) {
      var r := NormalizeName(s);
      assert forall i :: 0 <= i < |s| ==> r[i] == s[i];
    }
  }

  /** Renaming twice is the same as renaming once. */
  lemma NormalizeIdempotent(s: string)
    ensures NormalizeName(NormalizeName(s)) == NormalizeName(s)
  {
    NormalizeFixedPoint(NormalizeName(s));
  }

  /** The header rename is idempotent and leaves no space and no upper-case letter. */
  lemma NormalizeColumnsIdempotent(cols: seq<string>)
    ensures NormalizeColumns(NormalizeColumns(cols)) == NormalizeColumns(cols)
    ensures forall i :: 0 <= i < |cols| ==> IsNormalized(NormalizeColumns(cols)[i])
  {
    var once := NormalizeColumns(cols);
    forall i | 0 <= i < |cols| ensures NormalizeColumns(once)[i] == once[i] {
      NormalizeIdempotent(cols[i]);
    }
  }

  /** Lower-casing leaves text without upper-case letters alone. */
  lemma LowerOfNoUpper(s: string)
    requires NoUpper(s)
    ensures Lower(s) == s
  {
    assert forall i :: 0 <= i < |s| ==> Lower(s)[i] == s[i];
  }

  /** On a name without upper-case letters, `capitalize` only upper-cases the first character. */
  lemma CapitalizeOfNoUpper(c: char, rest: string)
    requires NoUpper(rest)
    ensures Capitalize([c] + rest) == [UpperChar(c)] + rest
  {
    var s := [c] + rest;
    assert s[1..] == rest;
    LowerOfNoUpper(rest);
    assert Upper(s[..1]) == [UpperChar(c)];
  }

  /** `capitalize` of a name that starts with a lower-case letter and has no upper-case letter. */
  lemma CapitalizeLowerName(s: string, t: string)
    requires |s| > 0 && IsLower(s[0]) && NoUpper(s)
    requires |t| == |s| && SameLetter(t[0], s[0]) && t[1..] == s[1..]
    ensures Capitalize(s) == t
  {
    assert s == [s[0]] + s[1..] && t == [t[0]] + t[1..];
    CapitalizeOfNoUpper(s[0], s[1..]);
  }

  /** Upper-casing is one-to-one on characters that are not upper-case letters. */
  lemma UpperCharInjective(a: char, b: char)
    requires !IsUpper(a) && !IsUpper(b) && UpperChar(a) == UpperChar(b)
    ensures a == b
  {
  }

  /**
   * Capitalising is one-to-one on names that hold no upper-case letter,
   * such as the dashboard's own column lists.
   */
  lemma CapitalizeInjective(s: string, t: string)
    requires NoUpper(s) && NoUpper(t) && Capitalize(s) == Capitalize(t)
    ensures s == t
  {
    if |s| > 0 {
      var c := Capitalize(s);
      assert UpperChar(s[0]) == c[0] == UpperChar(t[0]);
      UpperCharInjective(s[0], t[0]);
      forall i | 1 <= i < |s| ensures s[i] == t[i] {
        assert s[i] == c[i] == t[i];
      }
    }
  }
}
