/**
 * Normalisation of Brazilian company (CNPJ) and person (CPF) registry
 * numbers: `formataCNPJ`, the digit-only CNPJ of the company lookup and of
 * the directory sync, and the CPF punctuation removal.
 */
module Documents {
  import opened Wrappers
  import opened Text

  /** A CNPJ has fourteen digits. */
  const CnpjLength := 14

  /** The company lookup: the query's digits, refused when more than fourteen remain. */
  function CnpjQuery(raw: string): (r: Option<string>)
    ensures r.None? <==> DigitCount(raw) > CnpjLength
    ensures r.Some? ==> r.value == KeepDigits(raw)
    ensures r.Some? ==> AllDigits(r.value) && |r.value| == DigitCount(raw) <= CnpjLength
    ensures r.Some? ==> forall c :: IsDigit(c) ==> Occurrences(r.value, c) == Occurrences(raw, c)
  {
    var digits := KeepDigits(raw);
    if |digits| > CnpjLength then None
    else
      assert forall c :: IsDigit(c) ==> Occurrences(digits, c) == Occurrences(raw, c) by {
        forall c | IsDigit(c) ensures Occurrences(digits, c) == Occurrences(raw, c) {
          KeepDigitsKeepsDigits(raw, c);
        }
      }
      Some(digits)
  }

  /**
   * The directory sync: a company's CNPJ reduced to its digits, skipped when
   * nothing is left.  Only digits remain, so trimming spaces changes nothing.
   */
  function SyncCnpjKey(raw: string): (r: Option<string>)
    ensures r.None? <==> DigitCount(raw) == 0
    ensures r.Some? ==> r.value == KeepDigits(raw)
    ensures r.Some? ==> AllDigits(r.value) && |r.value| == DigitCount(raw)
    ensures r.Some? ==> forall c :: IsDigit(c) ==> Occurrences(r.value, c) == Occurrences(raw, c)
  {
    var digits := KeepDigits(raw);
    if digits == [] then None
    else
      assert forall c :: IsDigit(c) ==> Occurrences(digits, c) == Occurrences(raw, c) by {
        forall c | IsDigit(c) ensures Occurrences(digits, c) == Occurrences(raw, c) {
          KeepDigitsKeepsDigits(raw, c);
        }
      }
      Some(digits)
  }

  /** The CPF lookup: dots and dashes removed, everything else kept. */
  function CpfDigits(raw: string): (r: string)
    ensures '.' !in r && '-' !in r
    ensures forall c :: c != '.' && c != '-' ==> Occurrences(r, c) == Occurrences(raw, c)
  {
    var noDots := Strip(raw, '.');
    var r := Strip(noDots, '-');
    StripKeepsAbsent(noDots, '-', '.');
    assert forall c :: c != '.' && c != '-' ==> Occurrences(r, c) == Occurrences(raw, c) by {
      forall c | c != '.' && c != '-' ensures Occurrences(r, c) == Occurrences(raw, c) {
        StripKeepsOthers(raw, '.', c);
        StripKeepsOthers(noDots, '-', c);
      }
    }
    r
  }

  lemma CpfDigitsIdempotent(raw: string)
    ensures CpfDigits(CpfDigits(raw)) == CpfDigits(raw)
  {
    var r := CpfDigits(raw);
    StripAbsent(r, '.');
    StripAbsent(r, '-');
  }

  /** `formataCNPJ`'s first step: dots, slashes and dashes removed, in that order. */
  function StripCnpj(cnpj: string): (r: string)
    ensures '.' !in r && '/' !in r && '-' !in r
  {
    var noDots := Strip(cnpj, '.');
    var noSlashes := Strip(noDots, '/');
    StripKeepsAbsent(noDots, '/', '.');
    StripKeepsAbsent(noSlashes, '-', '.');
    StripKeepsAbsent(noSlashes, '-', '/');
    Strip(noSlashes, '-')
  }

  lemma StripCnpjConcat(a: string, b: string)
    ensures StripCnpj(a + b) == StripCnpj(a) + StripCnpj(b)
  {
    StripConcat(a, b, '.');
    StripConcat(Strip(a, '.'), Strip(b, '.'), '/');
    StripConcat(Strip(Strip(a, '.'), '/'), Strip(Strip(b, '.'), '/'), '-');
  }

  lemma StripCnpjClean(s: string)
    requires '.' !in s && '/' !in s && '-' !in s
    ensures StripCnpj(s) == s
  {
    StripAbsent(s, '.');
    StripAbsent(s, '/');
    StripAbsent(s, '-');
  }

  /** The layout XX.XXX.XXX/XXXX-XX of fourteen characters. */
  function Layout(d: string): string
    requires |d| == CnpjLength
  {
    d[0..2] + "." + d[2..5] + "." + d[5..8] + "/" + d[8..12] + "-" + d[12..14]
  }

  /**
   * `formataCNPJ`: after removing the separators, fourteen characters are laid
   * out as XX.XXX.XXX/XXXX-XX; any other length is returned stripped.
   */
  function FormataCnpj(cnpj: string): (r: string)
    ensures |StripCnpj(cnpj)| == CnpjLength ==>
      |r| == 18 && r[2] == '.' && r[6] == '.' && r[10] == '/' && r[15] == '-'
      && StripCnpj(r) == StripCnpj(cnpj)
    ensures |StripCnpj(cnpj)| != CnpjLength ==> r == StripCnpj(cnpj)
  {
    var d := StripCnpj(cnpj);
    if |d| != CnpjLength then d
    else
      LayoutShape(d);
      LayoutStrips(d);
      Layout(d)
  }

  lemma LayoutShape(d: string)
    requires |d| == CnpjLength
    ensures var r := Layout(d);
      |r| == 18 && r[2] == '.' && r[6] == '.' && r[10] == '/' && r[15] == '-'
  {
  }

  lemma StripSeparator(sep: char)
    requires sep == '.' || sep == '/' || sep == '-'
    ensures StripCnpj([sep]) == []
  {
    var s := [sep];
    assert s[1..] == [];
    if sep == '.' {
      assert Strip(s, '.') == [];
    } else if sep == '/' {
      assert Strip(s, '.') == s;
      assert Strip(s, '/') == [];
    } else {
      assert Strip(s, '.') == s;
      assert Strip(s, '/') == s;
      assert Strip(s, '-') == [];
    }
  }

  /** A separator between two pieces disappears when the separators are removed. */
  lemma StripAround(a: string, sep: char, b: string)
    requires sep == '.' || sep == '/' || sep == '-'
    ensures StripCnpj(a + [sep] + b) == StripCnpj(a) + StripCnpj(b)
  {
    var x := a + [sep];
    StripCnpjConcat(x, b);
    StripCnpjConcat(a, [sep]);
    StripSeparator(sep);
    var sa := StripCnpj(a);
    assert StripCnpj(x) == sa + [];
    assert sa + [] == sa;
  }

  /** A piece of a separator-free text is left alone. */
  lemma CleanSlice(d: string, i: int, j: int)
    requires '.' !in d && '/' !in d && '-' !in d
    requires 0 <= i <= j <= |d|
    ensures StripCnpj(d[i..j]) == d[i..j]
  {
    var p := d[i..j];
    assert forall k :: 0 <= k < |p| ==> p[k] == d[i + k];
    StripCnpjClean(p);
  }

  /** Removing the separators from five separated pieces joins the pieces. */
  lemma StripPieces(p0: string, p1: string, p2: string, p3: string, p4: string)
    requires StripCnpj(p0) == p0 && StripCnpj(p1) == p1 && StripCnpj(p2) == p2
    requires StripCnpj(p3) == p3 && StripCnpj(p4) == p4
    ensures StripCnpj(p0 + "." + p1 + "." + p2 + "/" + p3 + "-" + p4) == p0 + p1 + p2 + p3 + p4
  {
    var q1 := p0 + "." + p1;
    StripAround(p0, '.', p1);
    var q2 := q1 + "." + p2;
    StripAround(q1, '.', p2);
    var q3 := q2 + "/" + p3;
    StripAround(q2, '/', p3);
    StripAround(q3, '-', p4);
  }

  /** The five pieces of the layout, taken from a separator-free text, are separator-free. */
  lemma LayoutPiecesClean(d: string)
    requires |d| == CnpjLength && '.' !in d && '/' !in d && '-' !in d
    ensures StripCnpj(d[0..2]) == d[0..2] && StripCnpj(d[2..5]) == d[2..5]
    ensures StripCnpj(d[5..8]) == d[5..8] && StripCnpj(d[8..12]) == d[8..12]
    ensures StripCnpj(d[12..14]) == d[12..14]
  {
    CleanSlice(d, 0, 2);
    CleanSlice(d, 2, 5);
    CleanSlice(d, 5, 8);
    CleanSlice(d, 8, 12);
    CleanSlice(d, 12, 14);
  }

  /** The five pieces of the layout put back together give the text. */
  lemma LayoutPiecesJoin(d: string)
    requires |d| == CnpjLength
    ensures d[0..2] + d[2..5] + d[5..8] + d[8..12] + d[12..14] == d
  {
    assert d[0..2] + d[2..5] == d[0..5];
    assert d[0..5] + d[5..8] == d[0..8];
    assert d[0..8] + d[8..12] == d[0..12];
    assert d[0..12] + d[12..14] == d;
  }

  /** Removing the separators from the layout gives back the fourteen characters. */
  lemma LayoutStrips(d: string)
    requires |d| == CnpjLength && '.' !in d && '/' !in d && '-' !in d
    ensures StripCnpj(Layout(d)) == d
  {
    LayoutPiecesClean(d);
    StripPieces(d[0..2], d[2..5], d[5..8], d[8..12], d[12..14]);
    LayoutPiecesJoin(d);
  }

  /** Formatting an already formatted (or already rejected) CNPJ changes nothing. */
  lemma FormataCnpjIdempotent(cnpj: string)
    ensures FormataCnpj(FormataCnpj(cnpj)) == FormataCnpj(cnpj)
  {
    var d := StripCnpj(cnpj);
    if |d| != CnpjLength {
      StripCnpjClean(d);
    }
  }
}
