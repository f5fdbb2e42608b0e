/**
 * Spreadsheet column letters ("A", "Z", "AA", ...) as zero-based column
 * indices: the letters form a bijective base-26 numeral (A = 1 ... Z = 26)
 * and the index is that value minus one.
 */
module ColumnLetters {
  import opened Strings
  import opened Errors

  predicate IsLetter(c: char) {
    'A' <= c <= 'Z'
  }

  predicate AllLetters(s: string) {
    forall k :: 0 <= k < |s| ==> IsLetter(s[k])
  }

  /** The digit value of a letter: A = 1 ... Z = 26. */
  function Digit(c: char): int
    requires IsLetter(c)
  {
    c as int - 'A' as int + 1
  }

  /** The letter of digit value `d + 1`. */
  function Letter(d: int): char
    requires 0 <= d < 26
  {
    ('A' as int + d) as char
  }

  /** The numeral's value, accumulated left to right as the source loop does:
      each letter multiplies what came before by 26 and adds its digit. */
  function ColumnValue(s: string): nat
    requires AllLetters(s)
  {
    if s == [] then 0 else ColumnValue(s[..|s| - 1]) * 26 + Digit(s[|s| - 1])
  }

  /** What the conversion actually reads: the input upper-cased, then stripped. */
  function Normalize(name: string): string {
    Strip(Upper(name))
  }

  /**
   * `excel_col_to_index`: the numeral's value minus one, or
   * InvalidColumnLetter when some character of the normalised input is not
   * A-Z. An input that normalises to the empty string yields -1.
   */
  function ExcelColToIndex(name: string): (r: Result<int>)
    ensures r.Ok? <==> AllLetters(Normalize(name))
    ensures r.Ok? ==> r.value >= -1 && (r.value == -1 <==> Normalize(name) == [])
    ensures r.Err? ==> r.error == InvalidColumnLetter
  {
    var s := Normalize(name);
    if AllLetters(s) then Ok(ColumnValue(s) - 1) else Err(InvalidColumnLetter)
  }

  /** The inverse numeral: the letters whose value is `n` (empty for 0). */
  function Letters(n: nat): (s: string)
    ensures AllLetters(s)
    ensures |s| <= n
  {
    if n == 0 then [] else Letters((n - 1) / 26) + [Letter((n - 1) % 26)]
  }

  /** The column letters that name zero-based index `index`. */
  function ColumnName(index: nat): string {
    Letters(index + 1)
  }

  lemma {:induction false} ValueOfLetters(n: nat)
    ensures ColumnValue(Letters(n)) == n
  {
    if n > 0 {
      var p := Letters((n - 1) / 26);
      var s := Letters(n);
      assert s[..|s| - 1] == p;
      ValueOfLetters((n - 1) / 26);
    }
  }

  lemma {:induction false} LettersOfValue(s: string)
    requires AllLetters(s)
    ensures Letters(ColumnValue(s)) == s
  {
    if s != [] {
      var p := s[..|s| - 1];
      var c := s[|s| - 1];
      var n := ColumnValue(s);
      assert n - 1 == ColumnValue(p) * 26 + (Digit(c) - 1);
      assert (n - 1) / 26 == ColumnValue(p);
      assert (n - 1) % 26 == Digit(c) - 1;
      LettersOfValue(p);
      assert Letter(Digit(c) - 1) == c;
      assert s == p + [c];
    }
  }

  lemma {:induction false} StripLetters(s: string)
    requires AllLetters(s)
    ensures Strip(s) == s
  {
    assert s != [] ==> !IsSpace(s[0]) && !IsSpace(s[|s| - 1]);
    StripUnique(s, s, 0);
  }

  lemma {:induction false} UpperLetters(s: string)
    requires AllLetters(s)
    ensures Upper(s) == s
  {
    var u := Upper(s);
    assert |u| == |s|;
    forall k | 0 <= k < |s| ensures u[k] == s[k] {
      assert IsLetter(s[k]);
    }
  }

  lemma {:induction false} NormalizeLetters(s: string)
    requires AllLetters(s)
    ensures Normalize(s) == s
  {
    UpperLetters(s);
    StripLetters(s);
  }

  /** Canonical upper-case letters are read as they are. */
  lemma {:induction false} DecodeLetters(s: string)
    requires AllLetters(s)
    ensures ExcelColToIndex(s).Ok? && ExcelColToIndex(s).value == ColumnValue(s) - 1
  {
    NormalizeLetters(s);
  }

  /** Every zero-based index has column letters that decode back to it. */
  lemma {:induction false} IndexRoundTrip(index: nat)
    ensures ExcelColToIndex(ColumnName(index)) == Ok(index)
  {
    var r := ExcelColToIndex(ColumnName(index));
    DecodeLetters(ColumnName(index));
    ValueOfLetters(index + 1);
    assert r.Ok? && r.value == index;
  }

  /** Every accepted non-empty input names the column whose canonical letters
      are its normalised form: decoding is one-to-one on canonical letters. */
  lemma {:induction false} NameRoundTrip(name: string)
    requires ExcelColToIndex(name).Ok? && ExcelColToIndex(name).value >= 0
    ensures ColumnName(ExcelColToIndex(name).value) == Normalize(name)
  {
    LettersOfValue(Normalize(name));
  }

  /** "A" is column 0. */
  lemma {:induction false} FirstColumnExample()
    ensures ExcelColToIndex("A").Ok? && ExcelColToIndex("A").value == 0
  {
    DecodeLetters("A");
    assert ("A")[..0] == [];
  }

  /** "Z" is column 25. */
  lemma {:induction false} LastSingleLetterExample()
    ensures ExcelColToIndex("Z").Ok? && ExcelColToIndex("Z").value == 25
  {
    var z := "Z";
    assert AllLetters(z);
    DecodeLetters(z);
    assert z[..0] == [] && z[0] == 'Z';
    assert ColumnValue(z) == Digit('Z');
  }

  /** "AA" is column 26: after Z the numeral gains a second letter. */
  lemma {:induction false} TwoLetterExample()
    ensures ExcelColToIndex("AA").Ok? && ExcelColToIndex("AA").value == 26
  {
    var aa := "AA";
    var a := "A";
    assert AllLetters(aa) && AllLetters(a);
    DecodeLetters(aa);
    assert aa[..1] == a && aa[1] == 'A';
    assert a[..0] == [] && a[0] == 'A';
    assert ColumnValue(a) == 1;
    assert ColumnValue(aa) == 27;
  }

  /** Case does not matter: a lower-cased selector names the same column. */
  lemma {:induction false} CaseInsensitive(name: string)
    ensures ExcelColToIndex(Lower(name)) == ExcelColToIndex(name)
  {
    UpperOfLower(name);
    assert Normalize(Lower(name)) == Normalize(name);
  }

  /** Blanks around the selector do not matter. */
  lemma {:induction false} PaddingIgnored(name: string, left: string, right: string)
    requires AllSpace(left) && AllSpace(right)
    ensures ExcelColToIndex(left + name + right) == ExcelColToIndex(name)
  {
    NormalizePadded(name, left, right);
  }

  lemma {:induction false} NormalizePadded(name: string, left: string, right: string)
    requires AllSpace(left) && AllSpace(right)
    ensures Normalize(left + name + right) == Normalize(name)
  {
    UpperPadded(name, left, right);
    StripPadded(Upper(name), left, right);
  }

  /** A blank input gives -1. */
  lemma {:induction false} BlankExample()
    ensures ExcelColToIndex("").Ok? && ExcelColToIndex("").value == -1
  {
    assert Normalize("") == "";
  }

  /** A digit is refused. */
  lemma {:induction false} DigitExample()
    ensures ExcelColToIndex("A1").Err?
  {
    assert Upper("A1") == "A1";
    assert Strip("A1") == "A1";
    assert !IsLetter(("A1")[1]);
  }
}
