/** The route handlers of `web_flask/4-number_route.py` and
    `web_flask/6-number_odd_or_even.py`. Both files define the same text routes; they
    differ in how `number_route` answers a non-integer and in the two template routes
    only file 6 has. The text routes answer a `string`; the number and template routes
    answer a `Response`. Templates are not rendered: only the template name and the
    values handed to it are kept. */
module Routes {
  import opened Outcomes
  import opened Text
  import opened Decimal

  /** The value Flask passes for `<int:n>`; `OtherArg` stands for anything for which
      `isinstance(n, int)` is false. */
  datatype Arg = IntArg(n: int) | OtherArg(raw: string)

  datatype Response =
    | Body(text: string)                                    // a plain string return
    | Rendered(template: string, n: int, result: Option<string>) // render_template(...)
    | Page(template: string, status: int)                   // render_template(...), status
    | Aborted(status: int)                                  // abort(status)

  /** The route `/`. */
  function HelloHbnb(): string
  {
    "Hello HBNB!"
  }

  /** The route `/hbnb`. */
  function Hbnb(): string
  {
    "HBNB"
  }

  /** `text.replace('_', ' ')`: underscores become spaces, every other character stays
      where it was, and no underscore is left. */
  function UnderscoresToSpaces(t: string): (r: string)
    ensures |r| == |t|
    ensures forall i :: 0 <= i < |t| && t[i] != '_' ==> r[i] == t[i]
    ensures forall i :: 0 <= i < |t| && t[i] == '_' ==> r[i] == ' '
    ensures '_' !in r
  {
    Replace(t, "_", " ")
  }

  /** The route `/c/<text>`. */
  function CRoute(text: string): (r: string)
    ensures |r| == |text| + 2 && r[..2] == "C "
    ensures r[2..] == UnderscoresToSpaces(text) && '_' !in r[2..]
    ensures forall i :: 0 <= i < |text| && text[i] != '_' ==> r[i + 2] == text[i]
  {
    "C " + UnderscoresToSpaces(text)
  }

  const DefaultPythonText := "is cool"

  /** The routes `/python/` (no text: `None`) and `/python/<text>`. */
  function PythonRoute(text: Option<string>): (r: string)
    ensures |r| >= 7 && r[..7] == "Python "
    ensures text.None? ==> r[7..] == UnderscoresToSpaces(DefaultPythonText)
    ensures text.Some? ==> |r| == |text.value| + 7 && r[7..] == UnderscoresToSpaces(text.value)
  {
    var t := if text.None? then DefaultPythonText else text.value;
    var tail := UnderscoresToSpaces(t);
    var r := "Python " + tail;
    assert r[..7] == "Python " && r[7..] == tail;
    r
  }

  /** `/python/` without a text answers "Python is cool": the default holds no
      underscore, so it passes through unchanged. */
  lemma DefaultPythonPage()
    ensures PythonRoute(None) == "Python " + DefaultPythonText
  {
    assert UnderscoresToSpaces(DefaultPythonText) == DefaultPythonText;
  }

  const NumberSuffix := " is a number"

  /** `/number/<int:n>` in file 6: the integer's decimal rendering and a fixed suffix,
      `abort(404)` otherwise. */
  function NumberRoute6(arg: Arg): (r: Response)
    ensures arg.IntArg? <==> r.Body?
    ensures arg.OtherArg? ==> r == Aborted(404)
  {
    match arg
    case IntArg(n) => Body(IntToString(n) + NumberSuffix)
    case OtherArg(_) => Aborted(404)
  }

  /** `/number/<int:n>` in file 4: the same page; a non-integer gets the `404.html`
      template with status 404 instead of an abort. */
  function NumberRoute4(arg: Arg): (r: Response)
    ensures arg.IntArg? <==> r.Body?
    ensures arg.OtherArg? ==> r == Page("404.html", 404)
  {
    match arg
    case IntArg(n) => Body(IntToString(n) + NumberSuffix)
    case OtherArg(_) => Page("404.html", 404)
  }

  /** For every integer both revisions answer with a page ending in " is a number"
      whose head reads back as that integer: the 404 branches are unreachable. */
  lemma NumberPageNamesItsNumber(n: int)
    ensures NumberRoute4(IntArg(n)) == NumberRoute6(IntArg(n))
    ensures NumberRoute6(IntArg(n)).Body?
    ensures var t := NumberRoute6(IntArg(n)).text;
      |t| > 12 && t[|t| - 12..] == " is a number" && ReadInt(t[..|t| - 12]) == Some(n)
  {
    var t := NumberRoute6(IntArg(n)).text;
    assert t[..|t| - 12] == IntToString(n);
    IntToStringRoundTrip(n);
  }

  /** `/number_template/<int:n>` (file 6): only an integer renders, and the template
      `5-number.html` receives that integer and no parity. */
  function NumberTemplateRoute(arg: Arg): (r: Response)
    ensures r.Rendered? <==> arg.IntArg?
    ensures r.Rendered? ==> r.template == "5-number.html" && r.n == arg.n && r.result.None?
    ensures !r.Rendered? ==> r == Aborted(404)
  {
    match arg
    case IntArg(n) => Rendered("5-number.html", n, None)
    case OtherArg(_) => Aborted(404)
  }

  /** A non-zero multiple of `b` is at least `|b|` away from zero. */
  lemma {:induction false} MulAtLeast(b: int, d: int)
    requires b != 0 && d != 0
    ensures b * d >= b || b * d <= -b
    ensures b * d <= b || b * d >= -b
    decreases if d > 0 then d else -d
  {
    if d > 1 {
      MulAtLeast(b, d - 1);
      assert b * d == b * (d - 1) + b;
    } else if d < -1 {
      MulAtLeast(b, d + 1);
      assert b * d == b * (d + 1) - b;
    }
  }

  /** A multiple of `b` leaves no remainder. */
  lemma MultipleMod(b: int, k: int)
    requires b != 0
    ensures (b * k) % b == 0
  {
    var x := b * k;
    var q, m := x / b, x % b;
    assert x == b * q + m;
    assert b * (k - q) == m;
    if k != q {
      MulAtLeast(b, k - q);
    }
  }

  /** Python's `a % b`: the remainder takes the sign of the divisor (floor division),
      unlike Dafny's Euclidean `%`, whose remainder is never negative; for a positive
      divisor, such as the 2 of the parity test, the two agree. */
  function PyMod(a: int, b: int): (r: int)
    requires b != 0
    ensures b > 0 ==> 0 <= r < b && r == a % b
    ensures b < 0 ==> b < r <= 0 && (a - r) % b == 0 && (r == 0 <==> a % b == 0)
  {
    var e := a % b;
    if b < 0 && e != 0 then
      assert a - (e + b) == b * (a / b - 1);
      MultipleMod(b, a / b - 1);
      e + b
    else
      assert a - e == b * (a / b);
      MultipleMod(b, a / b);
      e
  }

  /** `'even' if n % 2 == 0 else 'odd'`. */
  function Parity(n: int): (r: string)
    ensures r == "even" || r == "odd"
    ensures r == "even" <==> n % 2 == 0
  {
    if PyMod(n, 2) == 0 then "even" else "odd"
  }

  /** Parity alternates along the integers, negatives included, and is symmetric
      under negation. */
  lemma ParityAlternates(n: int)
    ensures Parity(n) != Parity(n + 1)
    ensures Parity(n) == Parity(n + 2)
    ensures Parity(-n) == Parity(n)
  {
  }

  /** `/number_odd_or_even/<int:n>` (file 6): the template receives `n` and its parity. */
  function NumberOddOrEvenRoute(arg: Arg): (r: Response)
    ensures arg.OtherArg? ==> r == Aborted(404)
    ensures arg.IntArg? ==>
      (&& r.Rendered? && r.template == "6-number_odd_or_even.html"
       && r.n == arg.n && r.result.Some?
       && (r.result.value == "even" <==> arg.n % 2 == 0)
       && (r.result.value == "odd" <==> arg.n % 2 == 1))
  {
    match arg
    case IntArg(n) => Rendered("6-number_odd_or_even.html", n, Some(Parity(n)))
    case OtherArg(_) => Aborted(404)
  }

  /** The three integer routes of file 6 accept the same arguments: each aborts with
      404 exactly when the others do, and both templates receive the integer itself. */
  lemma NumberRoutesAgree(arg: Arg)
    ensures NumberTemplateRoute(arg) == Aborted(404) <==> NumberRoute6(arg) == Aborted(404)
    ensures NumberOddOrEvenRoute(arg) == Aborted(404) <==> NumberRoute6(arg) == Aborted(404)
    ensures NumberRoute6(arg).Body? ==>
      && NumberTemplateRoute(arg).n == arg.n && NumberOddOrEvenRoute(arg).n == arg.n
  {
  }

  /** Text without underscores appears verbatim after either prefix. */
  lemma NoUnderscorePassThrough(t: string)
    requires '_' !in t
    ensures CRoute(t) == "C " + t
    ensures PythonRoute(Some(t)) == "Python " + t
  {
    assert UnderscoresToSpaces(t) == t;
  }

  /** Replacing underscores a second time changes nothing. */
  lemma UnderscoreReplacementIdempotent(t: string)
    ensures UnderscoresToSpaces(UnderscoresToSpaces(t)) == UnderscoresToSpaces(t)
  {
    var once := UnderscoresToSpaces(t);
    assert UnderscoresToSpaces(once) == once;
  }
}
