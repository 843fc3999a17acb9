// The letter/number codec of the Sudoku engine: one character per cell, '0'..'9'
// then 'a'..'z' (capitals read like lower case), 0 meaning an empty cell.

module SudokuCodec {

  datatype Option<T> = None | Some(value: T)

  /** Largest rank: 1..9 and a..z (Sudoku.h:139). */
  const RankMax: int := 35
  /** Value of a blank cell (Sudoku.h:141). */
  const InvalidNumber: int := 0
  /** Map entry of a number absent from a block (Sudoku.h:140). */
  const InvalidPosition: int := -1

  predicate IsDigit(ch: char) { '0' <= ch <= '9' }
  predicate IsLower(ch: char) { 'a' <= ch <= 'z' }
  predicate IsUpper(ch: char) { 'A' <= ch <= 'Z' }
  predicate IsLetter(ch: char) { IsDigit(ch) || IsLower(ch) || IsUpper(ch) }

  /** The characters the placeholder-aware parser reads as an empty cell. */
  predicate IsBlankMark(ch: char) { ch == ' ' || ch == '*' || ch == '.' }

  function ToLower(ch: char): (r: char)
    ensures IsUpper(ch) ==> IsLower(r)
    ensures !IsUpper(ch) ==> r == ch
  {
    if IsUpper(ch) then (ch as int - 'A' as int + 'a' as int) as char else ch
  }

  /** number(): the value of a cell letter; any other character fails an assertion. */
  function Number(ch: char): (v: int)
    requires IsLetter(ch)
    ensures 0 <= v <= RankMax
    ensures IsDigit(ch) <==> v < 10
    ensures v == 0 <==> ch == '0'
  {
    if IsDigit(ch) then ch as int - '0' as int
    else if IsLower(ch) then ch as int - 'a' as int + 10
    else ch as int - 'A' as int + 10
  }

  /** letter() as written: defined below RankMax only, the other branch asserts. */
  function LetterAsWritten(n: int): (r: Option<char>)
    ensures r.Some? <==> 0 <= n < RankMax
    ensures r.Some? ==> (IsDigit(r.value) || IsLower(r.value)) && Number(r.value) == n
  {
    if 0 <= n < 10 then Some(('0' as int + n) as char)
    else if 10 <= n < RankMax then Some(('a' as int - 10 + n) as char)
    else None
  }

  /** letter() as evidently intended: every value 0..RankMax has a lower-case letter. */
  function Letter(n: int): (ch: char)
    requires 0 <= n <= RankMax
    ensures IsDigit(ch) || IsLower(ch)
    ensures Number(ch) == n
  {
    if n < 10 then ('0' as int + n) as char else ('a' as int - 10 + n) as char
  }

  /** The largest value a rank-35 grid holds, written 'z', has no letter as written. */
  lemma LetterAsWrittenMissesZ()
    ensures Number('z') == RankMax
    ensures LetterAsWritten(Number('z')) == None
    ensures Letter(Number('z')) == 'z'
  {
  }

  /** Below RankMax the corrected letter() agrees with the one as written. */
  lemma LetterAgrees(n: int)
    requires 0 <= n < RankMax
    ensures LetterAsWritten(n) == Some(Letter(n))
  {
  }

  /** number() of letter() is the identity on 0..RankMax. */
  lemma NumberOfLetter(n: int)
    requires 0 <= n <= RankMax
    ensures Number(Letter(n)) == n
  {
  }

  /** letter() of number() restores the character up to case. */
  lemma LetterOfNumber(ch: char)
    requires IsLetter(ch)
    ensures Letter(Number(ch)) == ToLower(ch)
  {
  }

  /** Capitals decode to the value of their lower-case letter. */
  lemma CapitalsAsLower(ch: char)
    requires IsUpper(ch)
    ensures IsLower(ToLower(ch)) && Number(ch) == Number(ToLower(ch))
  {
  }

  /** A character the parser accepts: a letter, or with a placeholder also a blank mark. */
  predicate Readable(ch: char, withMarks: bool)
  {
    IsLetter(ch) || (withMarks && IsBlankMark(ch))
  }

  /** The value one parse overload gives to one character. */
  function CellValue(ch: char, withMarks: bool): (v: int)
    requires Readable(ch, withMarks)
    ensures 0 <= v <= RankMax
    ensures v == 0 <==> ch == '0' || (withMarks && IsBlankMark(ch))
  {
    if withMarks && IsBlankMark(ch) then 0 else Number(ch)
  }

  /** Every blank mark, whichever the placeholder, parses to an empty cell. */
  lemma BlankMarksAreEmpty(ch: char)
    requires IsBlankMark(ch) || ch == '0'
    ensures CellValue(ch, true) == 0
  {
  }

  predicate AllReadable(s: seq<char>, withMarks: bool)
  {
    forall i :: 0 <= i < |s| ==> Readable(s[i], withMarks)
  }

  predicate AllValues(v: seq<int>)
  {
    forall i :: 0 <= i < |v| ==> 0 <= v[i] <= RankMax
  }

  /** The cell values of a text, character by character. */
  function Decoded(s: seq<char>, withMarks: bool): (v: seq<int>)
    requires AllReadable(s, withMarks)
    ensures |v| == |s| && AllValues(v)
  {
    seq(|s|, i requires 0 <= i < |s| && AllReadable(s, withMarks) => CellValue(s[i], withMarks))
  }

  /** The letters of a sequence of cell values. */
  function Encoded(v: seq<int>): (s: seq<char>)
    requires AllValues(v)
    ensures |s| == |v|
  {
    seq(|v|, i requires 0 <= i < |v| && AllValues(v) => Letter(v[i]))
  }

  /** Encoding and then decoding gives the values back. */
  lemma DecodeEncoded(v: seq<int>)
    requires AllValues(v)
    ensures AllReadable(Encoded(v), false)
    ensures Decoded(Encoded(v), false) == v
  {
    var s := Encoded(v);
    forall i | 0 <= i < |v|
      ensures IsLetter(s[i]) && CellValue(s[i], false) == v[i]
    {
      NumberOfLetter(v[i]);
    }
  }

  /** Decoding and then encoding gives the text back in lower case. */
  lemma EncodeDecoded(s: seq<char>)
    requires AllReadable(s, false)
    ensures Encoded(Decoded(s, false)) == seq(|s|, i requires 0 <= i < |s| => ToLower(s[i]))
  {
    forall i | 0 <= i < |s|
      ensures Encoded(Decoded(s, false))[i] == ToLower(s[i])
    {
      LetterOfNumber(s[i]);
    }
  }

  /**
   * Both parse() overloads: the first `length` characters of the text, one value each.
   * Without a placeholder every character must be a letter; with one, ' ', '*' and '.'
   * are read as '0' whatever the placeholder is.
   */
  method Parse(letters: seq<char>, length: int, withMarks: bool) returns (values: seq<int>)
    requires 0 <= length <= |letters|
    requires AllReadable(letters[..length], withMarks)
    ensures values == Decoded(letters[..length], withMarks)
  {
    values := [];
    var i := 0;
    while i < length
      invariant 0 <= i <= length
      invariant values == Decoded(letters[..i], withMarks)
    {
      assert Readable(letters[..length][i], withMarks);
      values := values + [CellValue(letters[i], withMarks)];
      i := i + 1;
    }
    assert letters[..i] == letters[..length];
  }
}
