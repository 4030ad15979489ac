/** What every handler checks before it touches the network: the `ano`
    query parameter, read with `request.args.get('ano', type=int)` and
    rejected when falsy, and the credential lookup of `verify_password`. */
module Gate {
  import opened Wrappers
  import opened Text

  predicate IsDigit(c: char) {
    '0' <= c <= '9'
  }

  /** The digits of a base-10 Python integer: ASCII digits, with single
      underscores allowed between two digits ("1_000"). */
  predicate IsDigitString(s: string) {
    |s| > 0 && IsDigit(s[0]) && IsDigit(s[|s| - 1])
    && (forall i :: 0 <= i < |s| ==> IsDigit(s[i]) || s[i] == '_')
    && (forall i :: 1 <= i < |s| && s[i - 1] == '_' ==> IsDigit(s[i]))
  }

  function DigitValue(c: char): nat
    requires IsDigit(c)
  {
    c as int - '0' as int
  }

  /** The number the digits of `s` spell, underscores skipped. */
  function DigitsValue(s: string): nat {
    if s == [] then 0
    else if IsDigit(s[|s| - 1]) then DigitsValue(s[..|s| - 1]) * 10 + DigitValue(s[|s| - 1])
    else DigitsValue(s[..|s| - 1])
  }

  /** The whitespace `int()` skips around its digits: Python's whitespace
      except the ASCII separators U+001C-U+001F, which CPython's integer
      parser does not skip (it skips only ASCII space, `\t`, `\n`, `\v`,
      `\f` and `\r` among ASCII, and every non-ASCII whitespace). */
  predicate IsIntSpace(c: char) {
    IsSpace(c) && !('\U{1C}' <= c <= '\U{1F}')
  }

  predicate IsSeparator(c: char) {
    '\U{1C}' <= c <= '\U{1F}'
  }

  /** Python's `int(s)` on a string: surrounding whitespace skipped, then
      the signed digits read; None where Python raises ValueError on such
      text (CPython's limit on the number of digits is not modelled). */
  function ParseInt(s: string): Option<int> {
    ParseSigned(StripBy(s, IsIntSpace))
  }

  /** An optional sign, then digits, with nothing around them. */
  function ParseSigned(t: string): (r: Option<int>)
    ensures r.Some? ==> t != []
  {
    if t == [] then None
    else
      var digits := if t[0] == '-' || t[0] == '+' then t[1..] else t;
      if !IsDigitString(digits) then None
      else
        var magnitude: int := DigitsValue(digits);
        Some(if t[0] == '-' then -magnitude else magnitude)
  }

  /** `int()` reads what the whitespace around the text wraps: the skipped
      whitespace changes nothing, and an all-whitespace text is refused. */
  lemma ParseIntUnwraps(lead: string, t: string, trail: string)
    requires AllOf(lead, IsIntSpace) && AllOf(trail, IsIntSpace)
    requires t == [] || (!IsIntSpace(t[0]) && !IsIntSpace(t[|t| - 1]))
    ensures ParseInt(lead + t + trail) == ParseSigned(t)
    ensures t == [] ==> ParseInt(lead + t + trail) == None
  {
    StripByUnwraps(lead, t, trail, IsIntSpace);
  }

  /** A text with no whitespace at either end is read as it stands. */
  lemma ParseIntBare(t: string)
    requires t != [] && !IsIntSpace(t[0]) && !IsIntSpace(t[|t| - 1])
    ensures ParseInt(t) == ParseSigned(t)
  {
    ParseIntUnwraps("", t, "");
    assert "" + t + "" == t;
  }

  /** What an accepted text is: an optional sign followed by digits, with
      single underscores only between two digits; its value is the number
      those digits spell, negated after a minus sign. */
  lemma ParseSignedShape(t: string)
    requires ParseSigned(t).Some?
    ensures var digits := if t[0] == '-' || t[0] == '+' then t[1..] else t;
            |digits| > 0 && IsDigit(digits[0]) && IsDigit(digits[|digits| - 1])
            && (forall i :: 0 <= i < |digits| ==> IsDigit(digits[i]) || digits[i] == '_')
            && (forall i :: 1 <= i < |digits| && digits[i - 1] == '_' ==> IsDigit(digits[i]))
            && ParseSigned(t).value == (if t[0] == '-' then -(DigitsValue(digits) as int) else DigitsValue(digits))
  {
    var digits := if t[0] == '-' || t[0] == '+' then t[1..] else t;
    assert IsDigitString(digits);
  }

  /** Any character other than a digit or an underscore refuses the text,
      unless it is the leading sign. */
  lemma ParseSignedRefusesNonDigit(t: string, k: nat)
    requires k < |t| && !IsDigit(t[k]) && t[k] != '_'
    requires k == 0 ==> t[k] != '-' && t[k] != '+'
    ensures ParseSigned(t) == None
  {
    if t[0] == '-' || t[0] == '+' {
      assert t[1..][k - 1] == t[k];
    }
  }

  /** An ASCII separator U+001C-U+001F anywhere in the text, around the
      digits included, makes `int()` raise ValueError. */
  lemma ParseIntRefusesSeparator(s: string, k: nat)
    requires k < |s| && IsSeparator(s[k])
    ensures ParseInt(s) == None
  {
    StripByKeeps(s, IsIntSpace, k);
    var a := |s| - |TrimStart(s, IsIntSpace)|;
    ParseSignedRefusesNonDigit(StripBy(s, IsIntSpace), k - a);
  }

  /** A letter inside the digits is refused by `int()`. */
  lemma ParseIntRefusesLetter()
    ensures ParseInt("20a4") == None
  {
    ParseIntBare("20a4");
    ParseSignedRefusesNonDigit("20a4", 2);
  }

  /** A decimal point is refused by `int()`. */
  lemma ParseIntRefusesPoint()
    ensures ParseInt("2.024") == None
  {
    ParseIntBare("2.024");
    ParseSignedRefusesNonDigit("2.024", 1);
  }

  /** A plus sign and a leading zero are read. */
  lemma ParseSignedReadsPlusSign()
    ensures ParseSigned("+07") == Some(7)
  {
    var d := "+07"[1..];
    assert d == "07";
    assert IsDigitString(d) by {
      forall i | 0 <= i < |d| ensures IsDigit(d[i]) { }
    }
    assert d[..1] == "0" && "0"[..0] == "";
    assert DigitsValue("0") == 0;
    assert DigitsValue(d) == 7;
  }

  /** Underscores between digits are skipped. */
  lemma ParseSignedReadsUnderscores()
    ensures ParseSigned("1_000") == Some(1000)
  {
    var d := "1_000";
    assert IsDigitString(d) by {
      forall i | 0 <= i < |d| ensures IsDigit(d[i]) || d[i] == '_' { }
      forall i | 1 <= i < |d| && d[i - 1] == '_' ensures IsDigit(d[i]) { }
    }
    assert d[..4] == "1_00" && "1_00"[..3] == "1_0" && "1_0"[..2] == "1_" && "1_"[..1] == "1" && "1"[..0] == "";
    assert DigitsValue("1") == 1;
    assert DigitsValue("1_") == 1;
    assert DigitsValue("1_0") == 10;
    assert DigitsValue("1_00") == 100;
    assert DigitsValue(d) == 1000;
  }

  /** `int()` reads a signed text. */
  lemma ParseIntReadsPlusSign()
    ensures ParseInt("+07") == Some(7)
  {
    ParseIntBare("+07");
    ParseSignedReadsPlusSign();
  }

  /** `int()` skips the underscores between digits. */
  lemma ParseIntReadsUnderscores()
    ensures ParseInt("1_000") == Some(1000)
  {
    ParseIntBare("1_000");
    ParseSignedReadsUnderscores();
  }

  function DigitChar(d: nat): (c: char)
    requires d < 10
    ensures IsDigit(c) && DigitValue(c) == d
  {
    ('0' as int + d) as char
  }

  /** The decimal digits of `n`, as `str(n)` writes them. */
  function ShowNat(n: nat): (s: string)
    ensures |s| > 0 && forall i :: 0 <= i < |s| ==> IsDigit(s[i])
  {
    if n < 10 then [DigitChar(n)] else ShowNat(n / 10) + [DigitChar(n % 10)]
  }

  /** `str(n)`. */
  function ShowInt(n: int): string {
    if n < 0 then "-" + ShowNat(-n) else ShowNat(n)
  }

  lemma {:induction false} DigitsValueShowNat(n: nat)
    ensures DigitsValue(ShowNat(n)) == n
  {
    if n >= 10 {
      var s := ShowNat(n);
      assert s[..|s| - 1] == ShowNat(n / 10);
      DigitsValueShowNat(n / 10);
    }
  }

  /** The signed digits `str(n)` writes are read back as `n`. */
  lemma ParseSignedShowInt(n: int)
    ensures ParseSigned(ShowInt(n)) == Some(n)
  {
    var m: nat := if n < 0 then -n else n;
    var digits := ShowNat(m);
    var s := ShowInt(n);
    assert IsDigitString(digits);
    DigitsValueShowNat(m);
    if n < 0 {
      assert s[0] == '-' && s[1..] == digits;
    } else {
      assert s == digits && s[0] != '-' && s[0] != '+';
    }
  }

  /** `int(str(n)) == n`: the integer parser reads back every integer. */
  lemma ParseShowInt(n: int)
    ensures ParseInt(ShowInt(n)) == Some(n)
  {
    var s := ShowInt(n);
    assert !IsIntSpace(s[0]) && !IsIntSpace(s[|s| - 1]);
    ParseIntBare(s);
    ParseSignedShowInt(n);
  }

  /** The year gate: `ano` missing, not an integer, or 0 is refused (400);
      any other integer, negative ones included, is the year. */
  function YearGate(ano: Option<string>): (year: Option<int>)
    ensures year.Some? ==> year.value != 0
    ensures year.Some? ==> ano.Some? && ParseInt(ano.value) == year
    ensures year.None? ==> ano.None? || ParseInt(ano.value).None? || ParseInt(ano.value) == Some(0)
  {
    match ano
    case None => None
    case Some(text) =>
      match ParseInt(text)
      case None => None
      case Some(n) => if n == 0 then None else Some(n)
  }

  /** Every year written the way `str` writes it passes the model's gate, except 0
      (CPython's limit on the number of digits is outside the model). */
  lemma YearGateAcceptsWrittenYears(y: int)
    ensures YearGate(Some(ShowInt(y))) == if y == 0 then None else Some(y)
  {
    ParseShowInt(y);
  }

  /** An `ano` holding an ASCII separator U+001C-U+001F, even only around
      the digits, is refused (400): `int()` raises on it. */
  lemma YearGateRefusesSeparator(ano: string, k: nat)
    requires k < |ano| && IsSeparator(ano[k])
    ensures YearGate(Some(ano)) == None
  {
    ParseIntRefusesSeparator(ano, k);
  }

  /** The credential table of app.py. */
  const Users: map<string, string> := map["user1" := "password1", "user2" := "password2"]

  /** `verify_password`: the username when it is known and the password is
      its own, nothing otherwise. */
  function VerifyPassword(users: map<string, string>, username: string, password: string): (r: Option<string>)
    ensures r.Some? <==> username in users && users[username] == password
    ensures r.Some? ==> r.value == username
  {
    if username in users && users[username] == password then Some(username) else None
  }

  /** With the table of app.py, exactly the two listed pairs are accepted. */
  lemma VerifyPasswordWithUsers(username: string, password: string)
    ensures VerifyPassword(Users, username, password).Some?
        <==> (username, password) in {("user1", "password1"), ("user2", "password2")}
  {
  }
}
