/**
 * The parser for the `days` setting of the wait sequence (vm_manager.py:117):
 * the string is split at every comma, each piece is stripped of surrounding
 * whitespace and read as a base-10 Python int, and the results form a set.
 * A piece that is not an int literal raises ValueError naming the stripped piece.
 */
module DaysParser {
  import opened Wrappers

  /** The characters str.isspace() accepts: ASCII whitespace, the separators 0x1C-0x1F, and Unicode spaces. */
  predicate IsSpace(c: char) {
    c == ' ' || ('\t' <= c <= '\r') || ('\U{1C}' <= c <= '\U{1F}') || c == '\U{85}' || c == '\U{A0}'
    || c == '\U{1680}' || ('\U{2000}' <= c <= '\U{200A}') || c == '\U{2028}' || c == '\U{2029}'
    || c == '\U{202F}' || c == '\U{205F}' || c == '\U{3000}'
  }

  predicate IsDigit(c: char) {
    '0' <= c <= '9'
  }

  /** Drops the leading whitespace: what remains is a suffix that does not start with a space. */
  function TrimStart(s: string): (r: string)
    ensures |r| <= |s| && r == s[|s| - |r|..]
    ensures r == [] || !IsSpace(r[0])
    ensures forall k :: 0 <= k < |s| - |r| ==> IsSpace(s[k])
    decreases |s|
  {
    if s != [] && IsSpace(s[0]) then TrimStart(s[1..]) else s
  }

  /** Drops the trailing whitespace: what remains is a prefix that does not end with a space. */
  function TrimEnd(s: string): (r: string)
    ensures |r| <= |s| && r == s[..|r|]
    ensures r == [] || !IsSpace(r[|r| - 1])
    ensures forall k :: |r| <= k < |s| ==> IsSpace(s[k])
    decreases |s|
  {
    if s != [] && IsSpace(s[|s| - 1]) then TrimEnd(s[..|s| - 1]) else s
  }

  /** str.strip(): the slice s[i..j] left after removing whitespace from both ends. */
  function Strip(s: string): (r: string)
    ensures r == [] || (!IsSpace(r[0]) && !IsSpace(r[|r| - 1]))
    ensures exists i, j :: 0 <= i <= j <= |s| && r == s[i..j]
              && (forall k :: 0 <= k < i ==> IsSpace(s[k]))
              && (forall k :: j <= k < |s| ==> IsSpace(s[k]))
  {
    var t := TrimStart(s);
    var r := TrimEnd(t);
    var i := |s| - |t|;
    assert r == s[i..i + |r|];
    r
  }

  /** A piece that neither starts nor ends with whitespace is its own strip. */
  lemma StripUntrimmed(s: string)
    requires s == [] || (!IsSpace(s[0]) && !IsSpace(s[|s| - 1]))
    ensures Strip(s) == s
  {
  }

  /** Joins pieces with `sep` between consecutive ones (the inverse of Split). */
  function Join(pieces: seq<string>, sep: char): string
    requires |pieces| >= 1
    decreases |pieces|
  {
    if |pieces| == 1 then pieces[0] else pieces[0] + [sep] + Join(pieces[1..], sep)
  }

  /** str.split(sep): the pieces between separators; an empty string yields one empty piece. */
  function Split(s: string, sep: char): (pieces: seq<string>)
    ensures |pieces| >= 1
    ensures forall i :: 0 <= i < |pieces| ==> sep !in pieces[i]
    ensures Join(pieces, sep) == s
    decreases |s|
  {
    if s == [] then [[]]
    else
      var rest := Split(s[1..], sep);
      if s[0] == sep then [[]] + rest
      else
        var pieces := [[s[0]] + rest[0]] + rest[1..];
        assert pieces[1..] == rest[1..];
        pieces
  }

  /** Text without separators in front of `t` extends the first piece of `t`'s split. */
  lemma {:induction false} SplitAfterPlain(a: string, t: string, sep: char)
    requires sep !in a
    ensures Split(a + t, sep) == [a + Split(t, sep)[0]] + Split(t, sep)[1..]
    decreases |a|
  {
    if a != [] {
      var whole := Split(t, sep);
      SplitAfterPlain(a[1..], t, sep);
      assert (a + t)[0] == a[0] && a[0] != sep;
      assert (a + t)[1..] == a[1..] + t;
      var rest := Split(a[1..] + t, sep);
      assert rest[0] == a[1..] + whole[0] && rest[1..] == whole[1..];
      assert [a[0]] + (a[1..] + whole[0]) == a + whole[0];
    } else {
      var whole := Split(t, sep);
      assert a + t == t && a + whole[0] == whole[0];
      assert [whole[0]] + whole[1..] == whole;
    }
  }

  /** A separator in front of `t` opens an empty first piece. */
  lemma SplitAfterSep(t: string, sep: char)
    ensures Split([sep] + t, sep) == [[]] + Split(t, sep)
  {
    assert ([sep] + t)[1..] == t;
  }

  /** Comma-free text, a separator, then `t`: the text is the first piece, then come `t`'s pieces. */
  lemma SplitCons(first: string, t: string, sep: char)
    requires sep !in first
    ensures Split(first + ([sep] + t), sep) == [first] + Split(t, sep)
  {
    SplitAfterSep(t, sep);
    SplitAfterPlain(first, [sep] + t, sep);
    assert first + [] == first;
  }

  /** Split undoes Join when no piece contains the separator. */
  lemma {:induction false} SplitJoin(pieces: seq<string>, sep: char)
    requires |pieces| >= 1
    requires forall i :: 0 <= i < |pieces| ==> sep !in pieces[i]
    ensures Split(Join(pieces, sep), sep) == pieces
    decreases |pieces|
  {
    var first := pieces[0];
    if |pieces| == 1 {
      SplitAfterPlain(first, [], sep);
      assert first + [] == first;
    } else {
      var rest := pieces[1..];
      SplitJoin(rest, sep);
      SplitCons(first, Join(rest, sep), sep);
      assert pieces == [first] + rest;
    }
  }

  function DigitValue(c: char): nat
    requires IsDigit(c)
  {
    c as int - '0' as int
  }

  /**
   * The digits of a Python int literal: decimal digits, where single underscores may
   * separate two digits. Read from the right: the last digit, then what precedes it
   * (skipping one underscore).
   */
  function ParseDigits(s: string): (r: Option<nat>)
    ensures r.Some? ==> |s| >= 1 && IsDigit(s[0]) && IsDigit(s[|s| - 1])
    ensures r.Some? ==> forall k :: 0 <= k < |s| ==> IsDigit(s[k]) || s[k] == '_'
    decreases |s|
  {
    if |s| == 0 || !IsDigit(s[|s| - 1]) then None
    else if |s| == 1 then Some(DigitValue(s[0]))
    else
      var init := if s[|s| - 2] == '_' then s[..|s| - 2] else s[..|s| - 1];
      match ParseDigits(init)
      case None => None
      case Some(v) => Some(10 * v + DigitValue(s[|s| - 1]))
  }

  /** int(s) for a stripped piece: an optional sign followed by digits. */
  function ParseInt(s: string): (r: Option<int>)
    ensures r.Some? ==> |s| >= 1 && (IsDigit(s[0]) || s[0] == '+' || s[0] == '-') && IsDigit(s[|s| - 1])
  {
    if |s| >= 1 && (s[0] == '+' || s[0] == '-') then
      match ParseDigits(s[1..])
      case None => None
      case Some(v) => var n: int := v; Some(if s[0] == '-' then -n else n)
    else
      match ParseDigits(s)
      case None => None
      case Some(v) => Some(v)
  }

  /**
   * The digits int() accepts: at least one decimal digit, and an underscore only
   * where a digit stands on both sides of it.
   */
  predicate WellFormedDigits(s: string) {
    |s| >= 1 && IsDigit(s[0]) && IsDigit(s[|s| - 1])
    && forall k :: 0 <= k < |s| && !IsDigit(s[k]) ==>
         s[k] == '_' && 0 < k < |s| - 1 && IsDigit(s[k - 1]) && IsDigit(s[k + 1])
  }

  /** The value of a digit string read from the left, ten times per digit, skipping underscores. */
  function FoldDigits(acc: nat, s: string): nat
    requires forall k :: 0 <= k < |s| ==> IsDigit(s[k]) || s[k] == '_'
    decreases |s|
  {
    if s == [] then acc
    else FoldDigits(if s[0] == '_' then acc else 10 * acc + DigitValue(s[0]), s[1..])
  }

  /** Appending a character to the right of a digit string: an underscore adds nothing, a digit shifts. */
  lemma {:induction false} FoldDigitsSnoc(acc: nat, s: string, c: char)
    requires forall k :: 0 <= k < |s| ==> IsDigit(s[k]) || s[k] == '_'
    requires IsDigit(c) || c == '_'
    ensures FoldDigits(acc, s + [c]) == if c == '_' then FoldDigits(acc, s) else 10 * FoldDigits(acc, s) + DigitValue(c)
    decreases |s|
  {
    if s == [] {
      assert [] + [c] == [c];
    } else {
      var next := if s[0] == '_' then acc else 10 * acc + DigitValue(s[0]);
      assert (s + [c])[0] == s[0] && (s + [c])[1..] == s[1..] + [c];
      FoldDigitsSnoc(next, s[1..], c);
    }
  }

  /** A digit after a digit: the longer string is well formed exactly when the shorter one is. */
  lemma WellFormedAfterDigit(s: string)
    requires |s| >= 2 && IsDigit(s[|s| - 1]) && IsDigit(s[|s| - 2])
    ensures WellFormedDigits(s) <==> WellFormedDigits(s[..|s| - 1])
  {
    var init := s[..|s| - 1];
    if WellFormedDigits(init) {
      forall k | 0 <= k < |s| && !IsDigit(s[k])
        ensures s[k] == '_' && 0 < k < |s| - 1 && IsDigit(s[k - 1]) && IsDigit(s[k + 1])
      {
        assert k < |init| && init[k] == s[k];
      }
    }
  }

  /** A digit after an underscore: well formed exactly when what precedes the underscore is. */
  lemma WellFormedAfterUnderscore(s: string)
    requires |s| >= 2 && IsDigit(s[|s| - 1]) && s[|s| - 2] == '_'
    ensures WellFormedDigits(s) <==> |s| >= 3 && WellFormedDigits(s[..|s| - 2])
  {
    if WellFormedDigits(s) {
      assert 0 < |s| - 2 && IsDigit(s[|s| - 3]);
      var init := s[..|s| - 2];
      forall k | 0 <= k < |init| && !IsDigit(init[k])
        ensures init[k] == '_' && 0 < k < |init| - 1 && IsDigit(init[k - 1]) && IsDigit(init[k + 1])
      {
        assert init[k] == s[k];
      }
    }
    if |s| >= 3 && WellFormedDigits(s[..|s| - 2]) {
      var init := s[..|s| - 2];
      forall k | 0 <= k < |s| && !IsDigit(s[k])
        ensures s[k] == '_' && 0 < k < |s| - 1 && IsDigit(s[k - 1]) && IsDigit(s[k + 1])
      {
        if k < |init| {
          assert init[k] == s[k];
        } else {
          assert k == |s| - 2 && s[k - 1] == init[|init| - 1];
        }
      }
    }
  }

  /** A digit after an underscore: the value shifts what precedes the underscore by one digit. */
  lemma FoldAfterUnderscore(s: string)
    requires |s| >= 3 && IsDigit(s[|s| - 1]) && s[|s| - 2] == '_' && WellFormedDigits(s)
    ensures WellFormedDigits(s[..|s| - 2])
    ensures FoldDigits(0, s) == 10 * FoldDigits(0, s[..|s| - 2]) + DigitValue(s[|s| - 1])
  {
    var init := s[..|s| - 2];
    WellFormedAfterUnderscore(s);
    assert s == init + ['_'] + [s[|s| - 1]];
    FoldDigitsSnoc(0, init, '_');
    FoldDigitsSnoc(0, init + ['_'], s[|s| - 1]);
  }

  /** A digit after a digit: the value shifts the shorter string by one digit. */
  lemma FoldAfterDigit(s: string)
    requires |s| >= 2 && IsDigit(s[|s| - 1]) && IsDigit(s[|s| - 2]) && WellFormedDigits(s)
    ensures WellFormedDigits(s[..|s| - 1])
    ensures FoldDigits(0, s) == 10 * FoldDigits(0, s[..|s| - 1]) + DigitValue(s[|s| - 1])
  {
    var init := s[..|s| - 1];
    WellFormedAfterDigit(s);
    assert s == init + [s[|s| - 1]];
    FoldDigitsSnoc(0, init, s[|s| - 1]);
  }

  /** ParseDigits accepts exactly the well-formed digit strings, and reads them as their left-to-right value. */
  lemma {:induction false} ParseDigitsValue(s: string)
    ensures ParseDigits(s) == if WellFormedDigits(s) then Some(FoldDigits(0, s)) else None
    decreases |s|
  {
    if |s| == 0 || !IsDigit(s[|s| - 1]) {
    } else if |s| == 1 {
      assert s[1..] == [];
      assert FoldDigits(0, s) == FoldDigits(DigitValue(s[0]), []);
    } else if s[|s| - 2] == '_' {
      ParseDigitsValue(s[..|s| - 2]);
      WellFormedAfterUnderscore(s);
      if WellFormedDigits(s) {
        FoldAfterUnderscore(s);
      }
    } else if IsDigit(s[|s| - 2]) {
      ParseDigitsValue(s[..|s| - 1]);
      WellFormedAfterDigit(s);
      if WellFormedDigits(s) {
        FoldAfterDigit(s);
      }
    } else {
      ParseDigitsValue(s[..|s| - 1]);
      assert !WellFormedDigits(s[..|s| - 1]);
    }
  }

  /** An int literal: well-formed digits, possibly after one sign. */
  predicate IsIntLiteral(s: string) {
    WellFormedDigits(s) || (|s| >= 1 && (s[0] == '+' || s[0] == '-') && WellFormedDigits(s[1..]))
  }

  /** The value of an int literal: its digits read from the left, negated after a minus sign. */
  function LiteralValue(s: string): int
    requires IsIntLiteral(s)
  {
    if WellFormedDigits(s) then FoldDigits(0, s)
    else
      var n: int := FoldDigits(0, s[1..]);
      if s[0] == '-' then -n else n
  }

  /** ParseInt accepts exactly the int literals, with their value. */
  lemma ParseIntValue(s: string)
    ensures ParseInt(s) == if IsIntLiteral(s) then Some(LiteralValue(s)) else None
  {
    if |s| >= 1 && (s[0] == '+' || s[0] == '-') {
      ParseDigitsValue(s[1..]);
      assert !WellFormedDigits(s);
    } else {
      ParseDigitsValue(s);
    }
  }

  /** Leading zeros, a plus sign and single underscores read as int() reads them. */
  lemma AcceptedLiterals()
    ensures ParseInt("007") == Some(7) && ParseInt("+3") == Some(3) && ParseInt("-1_0") == Some(-10)
  {
    assert ParseInt("007") == Some(7) by {
      ParseIntValue("007");
      assert WellFormedDigits("007");
    }
    assert ParseInt("+3") == Some(3) by {
      ParseIntValue("+3");
      assert "+3"[1..] == "3" && WellFormedDigits("3");
    }
    assert ParseInt("-1_0") == Some(-10) by {
      ParseIntValue("-1_0");
      assert "-1_0"[1..] == "1_0" && WellFormedDigits("1_0");
    }
  }

  /** Doubled, leading or trailing underscores, a bare sign, two signs and the empty string raise. */
  lemma RejectedLiterals()
    ensures ParseInt("1__0") == None && ParseInt("_1") == None && ParseInt("1_") == None
    ensures ParseInt("+") == None && ParseInt("") == None && ParseInt("+-1") == None
  {
  }

  function DigitChar(d: nat): (c: char)
    requires d < 10
    ensures IsDigit(c) && DigitValue(c) == d
  {
    ('0' as int + d) as char
  }

  /** The decimal digits of `n`, as str(n) writes them. */
  function ShowNat(n: nat): (s: string)
    ensures |s| >= 1
    ensures forall k :: 0 <= k < |s| ==> IsDigit(s[k])
    decreases n
  {
    if n < 10 then [DigitChar(n)] else ShowNat(n / 10) + [DigitChar(n % 10)]
  }

  /** str(i): a minus sign for a negative value, then its digits. */
  function ShowInt(i: int): (s: string)
    ensures |s| >= 1 && IsDigit(s[|s| - 1])
    ensures s[0] == '-' || IsDigit(s[0])
    ensures forall k :: 1 <= k < |s| ==> IsDigit(s[k])
  {
    if i < 0 then "-" + ShowNat(-i) else ShowNat(i)
  }

  lemma {:induction false} ParseShowNat(n: nat)
    ensures ParseDigits(ShowNat(n)) == Some(n)
    decreases n
  {
    if n >= 10 {
      var s := ShowNat(n);
      ParseShowNat(n / 10);
      assert s[..|s| - 1] == ShowNat(n / 10);
      assert IsDigit(s[|s| - 2]);
    }
  }

  /** A minus sign in front of the digits of `n` reads as -n. */
  lemma ParseShowNegative(n: nat)
    ensures ParseInt("-" + ShowNat(n)) == Some(-(n as int))
  {
    var digits := ShowNat(n);
    var s := "-" + digits;
    ParseShowNat(n);
    assert s[0] == '-' && s[1..] == digits;
  }

  /** Reading back what str() wrote gives the same int. */
  lemma ParseShowInt(i: int)
    ensures ParseInt(ShowInt(i)) == Some(i)
  {
    if i < 0 {
      ParseShowNegative(-i);
    } else {
      var digits := ShowNat(i);
      ParseShowNat(i);
      assert digits[0] != '+' && digits[0] != '-';
      assert ShowInt(i) == digits;
    }
  }

  /** `int(piece.strip())`: the value, or the ValueError that names the stripped piece. */
  function PieceValue(piece: string): (r: Result<int, string>)
    ensures r == if IsIntLiteral(Strip(piece)) then Success(LiteralValue(Strip(piece))) else Failure(Strip(piece))
  {
    ParseIntValue(Strip(piece));
    match ParseInt(Strip(piece))
    case None => Failure(Strip(piece))
    case Some(v) => Success(v)
  }

  /**
   * A set comprehension `{read(p) for p in pieces}` whose element expression may raise:
   * the pieces are read from the left and the first error ends it. Each piece adds at
   * most one element, and a successful read of at least one piece gives at least one.
   */
  function ReadAll(pieces: seq<string>, read: string -> Result<int, string>): (r: Result<set<int>, string>)
    ensures r.Success? ==> |r.value| <= |pieces|
    ensures r.Success? ==> (r.value == {} <==> pieces == [])
    decreases |pieces|
  {
    if pieces == [] then Success({})
    else
      match read(pieces[0])
      case Failure(e) => Failure(e)
      case Success(v) =>
        match ReadAll(pieces[1..], read)
        case Failure(e) => Failure(e)
        case Success(ds) => Success({v} + ds)
  }

  /** `read` accepts every piece. */
  predicate AllRead(pieces: seq<string>, read: string -> Result<int, string>) {
    forall i :: 0 <= i < |pieces| ==> read(pieces[i]).Success?
  }

  /** A piece in front: all pieces are read exactly when it and the rest are. */
  lemma AllReadCons(piece: string, rest: seq<string>, read: string -> Result<int, string>)
    ensures AllRead([piece] + rest, read) <==> read(piece).Success? && AllRead(rest, read)
  {
    var pieces := [piece] + rest;
    if read(piece).Success? && AllRead(rest, read) {
      forall i | 0 <= i < |pieces|
        ensures read(pieces[i]).Success?
      {
        if i > 0 {
          assert pieces[i] == rest[i - 1];
        }
      }
    }
    if AllRead(pieces, read) {
      assert pieces[0] == piece;
      forall i | 0 <= i < |rest|
        ensures read(rest[i]).Success?
      {
        assert rest[i] == pieces[i + 1];
      }
    }
  }

  /** Piece `i` is the first one that `read` rejects. */
  predicate FirstInvalid(pieces: seq<string>, read: string -> Result<int, string>, i: int) {
    0 <= i < |pieces| && read(pieces[i]).Failure? && AllRead(pieces[..i], read)
  }

  /** The comprehension succeeds exactly when every piece is read. */
  lemma {:induction false} ReadAllSucceeds(pieces: seq<string>, read: string -> Result<int, string>)
    ensures ReadAll(pieces, read).Success? <==> AllRead(pieces, read)
    decreases |pieces|
  {
    if pieces != [] {
      var tail := pieces[1..];
      ReadAllSucceeds(tail, read);
      AllReadCons(pieces[0], tail, read);
      assert pieces == [pieces[0]] + tail;
    }
  }

  /** A successful comprehension holds exactly the values read from the pieces. */
  lemma {:induction false} ReadAllElements(pieces: seq<string>, read: string -> Result<int, string>, d: int)
    requires ReadAll(pieces, read).Success?
    ensures d in ReadAll(pieces, read).value <==>
              exists i :: 0 <= i < |pieces| && read(pieces[i]) == Success(d)
    decreases |pieces|
  {
    if pieces != [] {
      var tail := pieces[1..];
      var v := read(pieces[0]).value;
      ReadAllElements(tail, read, d);
      assert ReadAll(pieces, read).value == {v} + ReadAll(tail, read).value;
      if d in ReadAll(pieces, read).value && d != v {
        var i :| 0 <= i < |tail| && read(tail[i]) == Success(d);
        assert pieces[i + 1] == tail[i];
      }
      if exists i :: 0 <= i < |pieces| && read(pieces[i]) == Success(d) {
        var i :| 0 <= i < |pieces| && read(pieces[i]) == Success(d);
        if i > 0 {
          assert tail[i - 1] == pieces[i];
        }
      }
    }
  }

  /** A rejected piece in front of `tail` moves the first rejected piece one place to the right. */
  lemma FirstInvalidCons(piece: string, tail: seq<string>, read: string -> Result<int, string>, i: int)
    requires read(piece).Success? && FirstInvalid(tail, read, i)
    ensures FirstInvalid([piece] + tail, read, i + 1)
  {
    var pieces := [piece] + tail;
    AllReadCons(piece, tail[..i], read);
    assert pieces[..i + 1] == [piece] + tail[..i];
    assert pieces[i + 1] == tail[i];
  }

  /** A failed comprehension raises the error of the first piece `read` rejects. */
  lemma {:induction false} ReadAllError(pieces: seq<string>, read: string -> Result<int, string>)
    requires ReadAll(pieces, read).Failure?
    ensures exists i :: FirstInvalid(pieces, read, i) && ReadAll(pieces, read).error == read(pieces[i]).error
    decreases |pieces|
  {
    var tail := pieces[1..];
    if read(pieces[0]).Failure? {
      assert FirstInvalid(pieces, read, 0);
    } else {
      ReadAllError(tail, read);
      var i :| FirstInvalid(tail, read, i) && ReadAll(tail, read).error == read(tail[i]).error;
      FirstInvalidCons(pieces[0], tail, read, i);
      assert pieces == [pieces[0]] + tail;
      assert pieces[i + 1] == tail[i];
    }
  }

  /** The days setting: `{int(i.strip()) for i in days.split(',')}`; an empty setting raises. */
  function ParseDays(days: string): (r: Result<set<int>, string>)
    ensures days == [] ==> r == Failure([])
  {
    ReadAll(Split(days, ','), PieceValue)
  }

  /** Each formatted day is one comma-free piece that reads back as that day. */
  lemma ShownDayReadsBack(d: int)
    ensures ',' !in ShowInt(d)
    ensures PieceValue(ShowInt(d)) == Success(d)
  {
    var s := ShowInt(d);
    assert !IsSpace(s[0]) && !IsSpace(s[|s| - 1]);
    StripUntrimmed(s);
    ParseShowInt(d);
    forall k | 0 <= k < |s|
      ensures s[k] != ','
    {
      assert k == 0 || IsDigit(s[k]);
    }
  }

  /** The pieces of a formatted list of days: each day as str() writes it. */
  function ShownDays(ds: seq<int>): (pieces: seq<string>)
    ensures |pieces| == |ds|
    ensures forall i :: 0 <= i < |ds| ==> ',' !in pieces[i] && PieceValue(pieces[i]) == Success(ds[i])
  {
    var pieces := seq(|ds|, i requires 0 <= i < |ds| => ShowInt(ds[i]));
    assert forall i :: 0 <= i < |ds| ==> ',' !in pieces[i] && PieceValue(pieces[i]) == Success(ds[i]) by {
      forall i | 0 <= i < |ds|
        ensures ',' !in pieces[i] && PieceValue(pieces[i]) == Success(ds[i])
      {
        ShownDayReadsBack(ds[i]);
      }
    }
    pieces
  }

  /** Writes a list of days the way a configuration file would hold them: "1,2,3". */
  function FormatDays(ds: seq<int>): string
    requires |ds| >= 1
  {
    Join(ShownDays(ds), ',')
  }

  /** Reading pieces that each hold one value gives exactly those values. */
  lemma ReadAllValues(pieces: seq<string>, read: string -> Result<int, string>, ds: seq<int>)
    requires |pieces| == |ds|
    requires forall i :: 0 <= i < |ds| ==> read(pieces[i]) == Success(ds[i])
    ensures ReadAll(pieces, read) == Success(set d | d in ds)
  {
    assert AllRead(pieces, read);
    ReadAllSucceeds(pieces, read);
    var r := ReadAll(pieces, read);
    var expected := set d | d in ds;
    forall d | d in r.value
      ensures d in expected
    {
      ReadAllElements(pieces, read, d);
      var i :| 0 <= i < |pieces| && read(pieces[i]) == Success(d);
      assert ds[i] == d;
    }
    forall d | d in expected
      ensures d in r.value
    {
      var i :| 0 <= i < |ds| && ds[i] == d;
      ReadAllElements(pieces, read, d);
    }
    assert r.value == expected;
  }

  /** Any comma-separated list of ints reads back as the set of its elements. */
  lemma ParseFormatDays(ds: seq<int>)
    requires |ds| >= 1
    ensures ParseDays(FormatDays(ds)) == Success(set d | d in ds)
  {
    var pieces := ShownDays(ds);
    SplitJoin(pieces, ',');
    ReadAllValues(pieces, PieceValue, ds);
  }
}
