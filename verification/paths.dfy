/** String helpers of the installer: JavaScript's `split` with a one-character separator, the
    file extension taken from it (getExtension), `replace` of the first occurrence of a
    character, the decimal form of a release id, and the encoded working directory. */
module Paths {
  import opened Wrappers

  /** `s.split(sep)`: the pieces between separators, left to right. */
  function Split(s: string, sep: char): (pieces: seq<string>)
    ensures |pieces| >= 1
    ensures forall i :: 0 <= i < |pieces| ==> sep !in pieces[i]
    decreases |s|
  {
    if |s| == 0 then [""]
    else
      var rest := Split(s[1..], sep);
      if s[0] == sep then [""] + rest
      else [[s[0]] + rest[0]] + rest[1..]
  }

  /** The last piece of a split is the text after the last separator, or the whole string
      when there is no separator. */
  lemma {:induction false} SplitLastPiece(s: string, sep: char)
    ensures var pieces := Split(s, sep);
      (|pieces| == 1 ==> pieces[0] == s) &&
      (sep !in s ==> |pieces| == 1)
    ensures var pieces := Split(s, sep); var last := pieces[|pieces| - 1];
      |last| <= |s| && last == s[|s| - |last|..] &&
      (|last| == |s| || s[|s| - |last| - 1] == sep)
    decreases |s|
  {
    if |s| > 0 {
      SplitLastPiece(s[1..], sep);
      var rest := Split(s[1..], sep);
      var pieces := Split(s, sep);
      if s[0] == sep {
        assert pieces == [""] + rest;
        assert pieces[|pieces| - 1] == rest[|rest| - 1];
      } else {
        assert pieces == [[s[0]] + rest[0]] + rest[1..];
        assert s == [s[0]] + s[1..];
        if |rest| > 1 {
          assert pieces[|pieces| - 1] == rest[|rest| - 1];
        }
      }
    }
  }

  /** `pieces.join(sep)`, the inverse of Split. */
  function Join(pieces: seq<string>, sep: char): string
    requires |pieces| >= 1
  {
    if |pieces| == 1 then pieces[0] else pieces[0] + [sep] + Join(pieces[1..], sep)
  }

  /** Prefixing a character to the first piece prefixes it to the joined text. */
  lemma JoinPrefixFirst(c: char, pieces: seq<string>, sep: char)
    requires |pieces| >= 1
    ensures Join([[c] + pieces[0]] + pieces[1..], sep) == [c] + Join(pieces, sep)
  {
    var moved := [[c] + pieces[0]] + pieces[1..];
    if |pieces| > 1 {
      assert moved[1..] == pieces[1..];
    }
  }

  /** Splitting loses nothing: joining the pieces back gives the original string. */
  lemma {:induction false} JoinSplit(s: string, sep: char)
    ensures Join(Split(s, sep), sep) == s
    decreases |s|
  {
    if |s| > 0 {
      var rest := Split(s[1..], sep);
      JoinSplit(s[1..], sep);
      if s[0] == sep {
        var pieces := [""] + rest;
        assert Split(s, sep) == pieces;
        assert pieces[1..] == rest;
        calc {
          Join(pieces, sep);
          "" + [sep] + Join(rest, sep);
          [s[0]] + s[1..];
        }
      } else {
        assert Split(s, sep) == [[s[0]] + rest[0]] + rest[1..];
        JoinPrefixFirst(s[0], rest, sep);
      }
      assert [s[0]] + s[1..] == s;
    }
  }

  /** getExtension: the last piece of `fileName.split(".")`. */
  function GetExtension(fileName: string): (ext: string)
    ensures '.' !in ext
    ensures |ext| <= |fileName| && ext == fileName[|fileName| - |ext|..]
    ensures |ext| == |fileName| || fileName[|fileName| - |ext| - 1] == '.'
  {
    SplitLastPiece(fileName, '.');
    var pieces := Split(fileName, '.');
    pieces[|pieces| - 1]
  }

  /** The three facts GetExtension guarantees pin its result down: the only dot-free suffix that
      is the whole name or follows a dot is the text after the last dot. */
  lemma ExtensionIsUnique(fileName: string, e: string)
    requires '.' !in e
    requires |e| <= |fileName| && e == fileName[|fileName| - |e|..]
    requires |e| == |fileName| || fileName[|fileName| - |e| - 1] == '.'
    ensures e == GetExtension(fileName)
  {
    var ext := GetExtension(fileName);
    NoDotInSuffix(fileName, ext);
    NoDotInSuffix(fileName, e);
    assert |e| == |ext|;
  }

  /** Every position covered by a dot-free suffix holds something other than a dot. */
  lemma NoDotInSuffix(f: string, x: string)
    requires |x| <= |f| && x == f[|f| - |x|..] && '.' !in x
    ensures forall q :: |f| - |x| <= q < |f| ==> f[q] != '.'
  {
    forall q | |f| - |x| <= q < |f|
      ensures f[q] != '.'
    {
      assert f[q] == x[q - (|f| - |x|)];
    }
  }

  /** A name without a dot is its own extension. */
  lemma ExtensionWithoutDot(fileName: string)
    requires '.' !in fileName
    ensures GetExtension(fileName) == fileName
  {
    SplitLastPiece(fileName, '.');
  }

  /** The archive extensions that make a copy also extract (case-sensitive). */
  predicate IsArchive(ext: string)
  {
    ext == "zip" || ext == "tar" || ext == "gz"
  }

  /** Index of the first occurrence of `c` in `s`. */
  function IndexOf(s: string, c: char): (r: Option<nat>)
    ensures r.None? <==> c !in s
    ensures r.Some? ==> r.value < |s| && s[r.value] == c
    ensures r.Some? ==> forall j :: 0 <= j < r.value ==> s[j] != c
    decreases |s|
  {
    if |s| == 0 then None
    else if s[0] == c then Some(0)
    else match IndexOf(s[1..], c)
      case None => None
      case Some(k) => Some(k + 1)
  }

  /** `s.replace(from, to)` with a one-character string pattern: only the first occurrence. */
  function ReplaceFirst(s: string, from: char, to: char): (r: string)
    ensures |r| == |s|
    ensures from !in s ==> r == s
    ensures from in s ==> var k := IndexOf(s, from).value;
              r[k] == to && forall j :: 0 <= j < |s| && j != k ==> r[j] == s[j]
  {
    match IndexOf(s, from)
    case None => s
    case Some(k) => s[..k] + [to] + s[k + 1..]
  }

  predicate IsDigit(c: char)
  {
    '0' <= c <= '9'
  }

  function DigitChar(d: nat): (c: char)
    requires d < 10
    ensures IsDigit(c)
  {
    (d + 48) as char
  }

  function DigitValue(c: char): nat
    requires IsDigit(c)
  {
    c as int - 48
  }

  /** The decimal text of a number, as a template literal prints it. */
  function Decimal(n: nat): (s: string)
    ensures |s| >= 1
    ensures forall i :: 0 <= i < |s| ==> IsDigit(s[i])
    decreases n
  {
    if n < 10 then [DigitChar(n)] else Decimal(n / 10) + [DigitChar(n % 10)]
  }

  /** Reads decimal text back into a number. */
  function ParseDecimal(s: string): nat
    requires forall i :: 0 <= i < |s| ==> IsDigit(s[i])
    decreases |s|
  {
    if |s| == 0 then 0 else 10 * ParseDecimal(s[..|s| - 1]) + DigitValue(s[|s| - 1])
  }

  /** Decimal loses no information: parsing it gives the number back. */
  lemma {:induction false} ParseDecimalInvertsDecimal(n: nat)
    ensures ParseDecimal(Decimal(n)) == n
    decreases n
  {
    if n >= 10 {
      var s := Decimal(n);
      assert s[..|s| - 1] == Decimal(n / 10);
      ParseDecimalInvertsDecimal(n / 10);
    }
  }

  /** Distinct numbers have distinct decimal texts. */
  lemma DecimalInjective(a: nat, b: nat)
    requires Decimal(a) == Decimal(b)
    ensures a == b
  {
    ParseDecimalInvertsDecimal(a);
    ParseDecimalInvertsDecimal(b);
  }

  const TempToken: string := "$TEMP"

  /** The encoded working directory of one release: `$TEMP\` + the owner name with its first
      "/" replaced by "-" + "-" + the release id. */
  function EncodedWorkingPath(ownerName: string, releaseId: nat): string
  {
    TempToken + "\\" + ReplaceFirst(ownerName, '/', '-') + "-" + Decimal(releaseId)
  }

  /** Two releases of the same owner never share an encoded working directory, and the
      directory starts with the temp token. */
  lemma WorkingPathsDistinct(ownerName: string, a: nat, b: nat)
    requires a != b
    ensures EncodedWorkingPath(ownerName, a) != EncodedWorkingPath(ownerName, b)
    ensures EncodedWorkingPath(ownerName, a)[..6] == "$TEMP\\"
  {
    var prefix := TempToken + "\\" + ReplaceFirst(ownerName, '/', '-') + "-";
    var pa := EncodedWorkingPath(ownerName, a);
    var pb := EncodedWorkingPath(ownerName, b);
    assert pa == prefix + Decimal(a);
    assert pb == prefix + Decimal(b);
    if pa == pb {
      assert Decimal(a) == pa[|prefix|..];
      assert Decimal(b) == pb[|prefix|..];
      DecimalInjective(a, b);
    }
  }

  /** Mapping "/" to "-" lets two different owner names share a directory name. */
  lemma OwnerNamesMayShareWorkingPath()
    ensures EncodedWorkingPath("a/b", 1) == EncodedWorkingPath("a-b", 1)
  {
    assert IndexOf("a/b", '/') == Some(1);
    assert '/' !in "a-b";
  }
}
