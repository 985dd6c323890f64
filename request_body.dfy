/** Reading the request body (http-forwarder.py:69-70): the first `Content-Length` header
    (looked up without case, as `HTTPMessage.get` does) is converted with `int()`, 0 when
    the header is absent, and that many bytes are read from the client. */
module RequestBody {
  import opened Wrappers
  import opened Ascii
  import opened Http

  /** `headers.get(name)`: the value of the first header whose name equals `name` ignoring case. */
  function HeaderGet(hs: seq<Header>, name: string): (r: Option<string>)
    ensures r.Some? <==> exists i :: 0 <= i < |hs| && Lower(hs[i].name) == Lower(name)
    ensures r.Some? ==>
      exists i :: 0 <= i < |hs| && Lower(hs[i].name) == Lower(name) && hs[i].value == r.value
        && forall j :: 0 <= j < i ==> Lower(hs[j].name) != Lower(name)
  {
    if hs == [] then None
    else if Lower(hs[0].name) == Lower(name) then Some(hs[0].value)
    else
      var r := HeaderGet(hs[1..], name);
      assert forall i :: 1 <= i < |hs| ==> hs[i] == hs[1..][i - 1];
      r
  }

  // ---------------------------------------------------------------------------
  // int() on a string, base 10

  function TrimLeft(s: string): string {
    if |s| > 0 && IsSpace(s[0]) then TrimLeft(s[1..]) else s
  }

  function TrimRight(s: string): string {
    if |s| > 0 && IsSpace(s[|s| - 1]) then TrimRight(s[..|s| - 1]) else s
  }

  /** Digits, with single underscores allowed between two digits. */
  predicate WellFormedDigits(u: string) {
    && |u| > 0
    && DigitsOrUnderscores(u)
    && forall i :: 0 <= i < |u| ==>
      IsDigit(u[i]) || (0 < i < |u| - 1 && u[i] == '_' && IsDigit(u[i - 1]) && IsDigit(u[i + 1]))
  }

  predicate DigitsOrUnderscores(u: string) {
    forall i :: 0 <= i < |u| ==> IsDigit(u[i]) || u[i] == '_'
  }

  /** The digit characters of `u`, underscores dropped. */
  function DigitsOf(u: string): string
    decreases |u|
  {
    if u == [] then []
    else DigitsOf(u[..|u| - 1]) + (if u[|u| - 1] == '_' then [] else [u[|u| - 1]])
  }

  /** The longest run of digits `int()` converts (`sys.int_info.default_max_str_digits`). */
  const MaxStrDigits: nat := 4300

  /** What `int()` accepts after stripping and the sign: well-formed digits, at most
      `MaxStrDigits` of them. */
  predicate Numeral(u: string) {
    WellFormedDigits(u) && |DigitsOf(u)| <= MaxStrDigits
  }

  /** The number the digits of `u` spell, underscores skipped. */
  function DigitsValue(u: string): nat
    requires DigitsOrUnderscores(u)
    decreases |u|
  {
    if u == [] then 0
    else if u[|u| - 1] == '_' then DigitsValue(u[..|u| - 1])
    else DigitsValue(u[..|u| - 1]) * 10 + DigitValue(u[|u| - 1])
  }

  /** `int(s)`: whitespace around the number is ignored, an optional sign comes first.
      `None` stands for the `ValueError` Python raises on anything else. */
  function ParseInt(s: string): Option<int> {
    var t := TrimRight(TrimLeft(s));
    if |t| > 0 && (t[0] == '+' || t[0] == '-') then
      if Numeral(t[1..]) then
        Some(if t[0] == '-' then -(DigitsValue(t[1..]) as int) else DigitsValue(t[1..]))
      else None
    else if Numeral(t) then Some(DigitsValue(t))
    else None
  }

  lemma {:induction false} DecimalValue(n: nat)
    ensures DigitsValue(Decimal(n)) == n
  {
    if n >= 10 {
      DecimalValue(n / 10);
      assert Decimal(n)[..|Decimal(n)| - 1] == Decimal(n / 10);
    }
  }

  lemma {:induction false} DigitsOfPlain(d: string)
    requires forall i :: 0 <= i < |d| ==> IsDigit(d[i])
    ensures DigitsOf(d) == d
    decreases |d|
  {
    if d != [] {
      DigitsOfPlain(d[..|d| - 1]);
      assert d[..|d| - 1] + [d[|d| - 1]] == d;
    }
  }

  /** Dropping the underscores keeps the value, and leaves digits only. */
  lemma {:induction false} DigitsOfValue(u: string)
    requires DigitsOrUnderscores(u)
    ensures forall i :: 0 <= i < |DigitsOf(u)| ==> IsDigit(DigitsOf(u)[i])
    ensures DigitsValue(DigitsOf(u)) == DigitsValue(u)
    decreases |u|
  {
    if u != [] {
      var p := u[..|u| - 1];
      DigitsOfValue(p);
      if u[|u| - 1] == '_' {
        assert DigitsOf(u) == DigitsOf(p) + [];
        assert DigitsOf(p) + [] == DigitsOf(p);
      } else {
        var q := DigitsOf(p) + [u[|u| - 1]];
        assert DigitsOf(u) == q;
        assert q[..|q| - 1] == DigitsOf(p);
        assert DigitsValue(q) == DigitsValue(DigitsOf(p)) * 10 + DigitValue(u[|u| - 1]);
      }
    }
  }

  lemma NothingToStrip(s: string)
    requires |s| > 0 && !IsSpace(s[0]) && !IsSpace(s[|s| - 1])
    ensures TrimRight(TrimLeft(s)) == s
  {
  }

  /** The sign is taken off before the digits are read. */
  lemma ParseIntSigned(u: string, sign: char)
    requires WellFormedDigits(u) && (sign == '+' || sign == '-')
    ensures ParseInt(u) == if Numeral(u) then Some(DigitsValue(u) as int) else None
    ensures ParseInt([sign] + u) ==
      if !Numeral(u) then None
      else if sign == '-' then Some(-(DigitsValue(u) as int))
      else Some(DigitsValue(u) as int)
  {
    NothingToStrip(u);
    var t := [sign] + u;
    NothingToStrip(t);
    assert t[1..] == u;
  }

  /** Plain digits of a small enough count are a numeral. */
  lemma {:induction false} PlainNumeral(d: string)
    requires 0 < |d| <= MaxStrDigits && forall i :: 0 <= i < |d| ==> IsDigit(d[i])
    ensures Numeral(d)
  {
    DigitsOfPlain(d);
  }

  /** `int()` reads back what `str()` writes, with or without a sign, for every number
      of at most `MaxStrDigits` digits. */
  lemma ParseIntDecimal(n: nat)
    requires |Decimal(n)| <= MaxStrDigits
    ensures ParseInt(Decimal(n)) == Some(n)
    ensures ParseInt("+" + Decimal(n)) == Some(n)
    ensures ParseInt("-" + Decimal(n)) == Some(-(n as int))
  {
    var d := Decimal(n);
    DecimalValue(n);
    PlainNumeral(d);
    ParseIntSigned(d, '+');
    ParseIntSigned(d, '-');
  }

  /** More than `MaxStrDigits` digits are refused, with or without a sign. */
  lemma ParseIntTooManyDigits(u: string)
    requires WellFormedDigits(u) && |DigitsOf(u)| > MaxStrDigits
    ensures ParseInt(u) == None
    ensures ParseInt("+" + u) == None
    ensures ParseInt("-" + u) == None
  {
  }

  /** Single underscores placed between the digits of `str(n)` leave the value `n`. */
  lemma ParseIntUnderscores(u: string, n: nat)
    requires WellFormedDigits(u) && DigitsOf(u) == Decimal(n)
    requires |Decimal(n)| <= MaxStrDigits
    ensures ParseInt(u) == Some(n)
  {
    ParseIntSigned(u, '+');
    DigitsOfValue(u);
    DecimalValue(n);
  }

  ghost predicate AllSpace(w: string) {
    forall i :: 0 <= i < |w| ==> IsSpace(w[i])
  }

  lemma {:induction false} TrimLeftSpaces(w: string, s: string)
    requires AllSpace(w)
    ensures TrimLeft(w + s) == TrimLeft(s)
    decreases |w|
  {
    if w == [] {
      assert w + s == s;
    } else {
      assert IsSpace((w + s)[0]);
      assert (w + s)[1..] == w[1..] + s;
      assert AllSpace(w[1..]) by {
        assert forall i :: 0 <= i < |w| - 1 ==> w[1..][i] == w[i + 1];
      }
      TrimLeftSpaces(w[1..], s);
    }
  }

  lemma {:induction false} TrimLeftAppend(s: string, w: string)
    requires AllSpace(w)
    ensures TrimLeft(s + w) == if AllSpace(s) then [] else TrimLeft(s) + w
    decreases |s|
  {
    if s == [] {
      assert s + w == w;
      TrimLeftSpaces(w, []);
      assert w + [] == w;
    } else if IsSpace(s[0]) {
      assert (s + w)[1..] == s[1..] + w;
      TrimLeftAppend(s[1..], w);
    }
  }

  lemma {:induction false} TrimRightSpaces(t: string, w: string)
    requires AllSpace(w)
    ensures TrimRight(t + w) == TrimRight(t)
    decreases |w|
  {
    if w == [] {
      assert t + w == t;
    } else {
      var w' := w[..|w| - 1];
      assert (t + w)[..|t + w| - 1] == t + w';
      TrimRightSpaces(t, w');
    }
  }

  lemma {:induction false} TrimAllSpace(s: string)
    requires AllSpace(s)
    ensures TrimLeft(s) == []
    decreases |s|
  {
    if s != [] {
      TrimAllSpace(s[1..]);
    }
  }

  /** Whitespace around any string leaves what `int()` makes of it unchanged. */
  lemma ParseIntStripsSpace(w1: string, s: string, w2: string)
    requires AllSpace(w1) && AllSpace(w2)
    ensures ParseInt(w1 + s + w2) == ParseInt(s)
  {
    assert w1 + s + w2 == w1 + (s + w2);
    TrimLeftSpaces(w1, s + w2);
    TrimLeftAppend(s, w2);
    if AllSpace(s) {
      TrimAllSpace(s);
    } else {
      TrimRightSpaces(TrimLeft(s), w2);
    }
  }

  /** A number must have digits, and nothing else but single underscores between them. */
  lemma ParseIntRejects()
    ensures ParseInt("") == None
    ensures ParseInt("-") == None
    ensures ParseInt("1__0") == None
    ensures ParseInt("12a") == None
    ensures ParseInt("\U{1C}5") == None
  {
    var underscores := "1__0";
    assert TrimRight(TrimLeft(underscores)) == underscores;
    assert underscores[1] == '_' && underscores[2] == '_';
    var letter := "12a";
    assert TrimRight(TrimLeft(letter)) == letter;
    assert !IsDigit(letter[2]);
    var separator := "\U{1C}5";
    assert TrimRight(TrimLeft(separator)) == separator;
    assert !IsDigit(separator[0]) && separator[0] != '_';
  }

  // ---------------------------------------------------------------------------
  // The body

  /** `int(self.headers.get('Content-Length', 0))`; `None` when `int()` raises. */
  function ContentLength(hs: seq<Header>): Option<int> {
    match HeaderGet(hs, "Content-Length")
    case None => Some(0)
    case Some(v) => ParseInt(v)
  }

  /** `sys.maxsize` of a 64-bit CPython: the largest length `io.BufferedReader.read`
      converts to a C `Py_ssize_t`. */
  const MaxSsize: nat := 9223372036854775807

  /** `self.rfile.read(n)` on a client that sends `stream` and then closes: at most `n`
      bytes for `0 <= n <= MaxSsize`, everything for `n == -1`, and `None` for the
      `ValueError` a smaller `n` raises and the `OverflowError` a larger one raises. */
  function ReadBody(stream: seq<byte>, n: int): (r: Option<seq<byte>>)
    ensures r.Some? <==> -1 <= n <= MaxSsize
    ensures r.Some? ==> r.value <= stream
    ensures 0 <= n <= MaxSsize ==> |r.value| == if n <= |stream| then n else |stream|
    ensures n == -1 ==> r.value == stream
  {
    if n > MaxSsize then None
    else if n >= 0 then Some(stream[..if n <= |stream| then n else |stream|])
    else if n == -1 then Some(stream)
    else None
  }

  /** Without a `Content-Length` header nothing is read. */
  lemma NoContentLengthReadsNothing(hs: seq<Header>, stream: seq<byte>)
    requires forall i :: 0 <= i < |hs| ==> Lower(hs[i].name) != "content-length"
    ensures ContentLength(hs) == Some(0)
    ensures ReadBody(stream, 0) == Some([])
  {
    assert Lower("Content-Length") == "content-length";
  }
}
