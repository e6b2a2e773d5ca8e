/** Types written as strings, and read back. */
module TypeSignatures {
  import opened Options

  datatype Type =
    | Void
    | UPtr
    | Bool
    | Int(bitWidth: nat, signed: bool)
    | FP(bitWidth: nat)
    | Ptr(data: Type)
    | Array(element: Type, size: nat)
    | Fn(variadic: bool, result: Type, params: seq<Type>)

  /** Widths that exist, and sizes that are read back as a C `int`. */
  predicate WellFormed(t: Type) {
    match t
    case Int(w, _) => w in {8, 16, 32, 64}
    case FP(w) => w in {32, 64, 128}
    case Ptr(d) => WellFormed(d)
    case Array(e, n) => WellFormed(e) && n < 0x8000_0000
    case Fn(_, r, ps) => WellFormed(r) && forall k :: 0 <= k < |ps| ==> WellFormed(ps[k])
    case _ => true
  }

  // ---- numbers ----

  predicate IsDigit(c: char) {
    '0' <= c <= '9'
  }

  predicate IsAlpha(c: char) {
    'a' <= c <= 'z' || 'A' <= c <= 'Z'
  }

  function Digit(d: nat): (c: char)
    requires d < 10
    ensures c as int == 48 + d
  {
    '0' + d as char
  }

  function DigitValue(c: char): (d: nat)
    requires IsDigit(c)
    ensures d == c as int - 48
  {
    (c - '0') as nat
  }

  function Decimal(n: nat): (s: string)
    ensures s != [] && forall k :: 0 <= k < |s| ==> IsDigit(s[k])
  {
    if n < 10 then [Digit(n)] else Decimal(n / 10) + [Digit(n % 10)]
  }

  function Value(s: string): nat
    requires forall k :: 0 <= k < |s| ==> IsDigit(s[k])
  {
    if s == [] then 0 else 10 * Value(s[..|s| - 1]) + DigitValue(s[|s| - 1])
  }

  lemma {:induction false} ValueOfDecimal(n: nat)
    ensures Value(Decimal(n)) == n
  {
    var s := Decimal(n);
    if n < 10 {
      assert s[..|s| - 1] == [];
      assert Value([]) == 0;
    } else {
      assert s[..|s| - 1] == Decimal(n / 10);
      ValueOfDecimal(n / 10);
    }
  }

  /** The number that a text of digits denotes, by the codes of its characters. */
  ghost function Number(s: string): int {
    if s == [] then 0 else 10 * Number(s[..|s| - 1]) + (s[|s| - 1] as int - 48)
  }

  /** Numbers are written in decimal: digits only, and none of them superfluous. */
  lemma {:induction false} DecimalIs(n: nat)
    ensures var s := Decimal(n); Number(s) == n && s != [] && (forall k :: 0 <= k < |s| ==> 48 <= s[k] as int <= 57)
    ensures var s := Decimal(n); s[0] as int == 48 ==> n == 0 && |s| == 1
  {
    var s := Decimal(n);
    if n < 10 {
      assert s[..|s| - 1] == [];
      assert Number([]) == 0;
    } else {
      DecimalSteps(n);
      DecimalIs(n / 10);
      hide Decimal;
      assert s[..|s| - 1] == Decimal(n / 10);
      assert s[0] == Decimal(n / 10)[0];
    }
  }

  lemma DecimalSteps(n: nat)
    ensures n < 10 ==> |Decimal(n)| == 1 && Decimal(n)[0] as int == 48 + n
    ensures n >= 10 ==> exists c: char :: c as int == 48 + n % 10 && Decimal(n) == Decimal(n / 10) + [c]
  {
    if n >= 10 {
      var c := Digit(n % 10);
      assert Decimal(n) == Decimal(n / 10) + [c];
    }
  }

  // ---- writing ----

  /** An array of arrays lists its sizes one after the other. */
  function Sign(t: Type): (s: string)
    ensures s != [] && IsAlpha(s[0]) && (t.Array? ==> s[0] == 'A')
  {
    match t
    case Void => "void"
    case UPtr => "addr"
    case Bool => "bool"
    case Int(w, signed) => (if signed then "i" else "u") + Decimal(w)
    case FP(w) => "f" + Decimal(w)
    case Ptr(d) => "P" + Sign(d)
    case Array(e, n) => "A" + Decimal(n) + "_" + (if e.Array? then Sign(e)[1..] else Sign(e))
    case Fn(variadic, r, ps) => "F" + (if variadic then "V" else "") + Sign(r) + (if ps == [] then "" else "_" + SignAll(ps)) + "T"
  }

  function SignAll(ts: seq<Type>): string {
    if ts == [] then "" else Sign(ts[0]) + SignAll(ts[1..])
  }

  // ---- reading ----

  /** The character at `p`; strings end with a zero. */
  function At(s: string, p: nat): char {
    if p < |s| then s[p] else 0 as char
  }

  /** The text `w` stands at position `p`. */
  ghost predicate Stands(s: string, p: nat, w: string) {
    p + |w| <= |s| && s[p..p + |w|] == w
  }

  /** The signature of `t` stands at position `p`, and no digit follows. */
  ghost predicate Signed(s: string, p: nat, t: Type) {
    WellFormed(t) && Stands(s, p, Sign(t)) && !IsDigit(At(s, p + |Sign(t)|))
  }

  lemma StandsParts(s: string, p: nat, a: string, b: string)
    requires Stands(s, p, a + b)
    ensures Stands(s, p, a) && Stands(s, p + |a|, b)
  {
    var w := a + b;
    assert s[p..p + |w|] == w;
    assert s[p..p + |a|] == w[..|a|];
    assert s[p + |a|..p + |w|] == w[|a|..];
  }

  lemma StandsAt(s: string, p: nat, w: string, k: nat)
    requires Stands(s, p, w) && k < |w|
    ensures At(s, p + k) == w[k]
  {
    assert s[p..p + |w|][k] == s[p + k];
  }

  /** The digits from position `p` on, as many as there are. */
  ghost function DigitsAt(s: string, p: nat): (r: string)
    ensures forall k :: 0 <= k < |r| ==> IsDigit(r[k])
    decreases |s| - p
  {
    if p < |s| && IsDigit(s[p]) then [s[p]] + DigitsAt(s, p + 1) else []
  }

  lemma {:induction false} DigitsStandAt(s: string, p: nat, digits: string)
    requires Stands(s, p, digits) && !IsDigit(At(s, p + |digits|)) && forall k :: 0 <= k < |digits| ==> IsDigit(digits[k])
    ensures DigitsAt(s, p) == digits
    decreases |digits|
  {
    if digits != [] {
      StandsAt(s, p, digits, 0);
      assert digits == [digits[0]] + digits[1..];
      StandsParts(s, p, [digits[0]], digits[1..]);
      DigitsStandAt(s, p + 1, digits[1..]);
    }
  }

  lemma {:induction false} DigitsGrow(s: string, p: nat, q: nat)
    requires p <= q <= |s| && forall j :: p <= j < q ==> IsDigit(s[j])
    ensures DigitsAt(s, p) == s[p..q] + DigitsAt(s, q)
    decreases q - p
  {
    if p < q {
      DigitsGrow(s, p + 1, q);
      assert s[p..q] == [s[p]] + s[p + 1..q];
    }
  }

  /** Read a decimal number. */
  method ReadNumber(s: string, p: nat) returns (n: nat)
    ensures n == Value(DigitsAt(s, p))
  {
    n := 0;
    var q := p;
    while IsDigit(At(s, q))
      invariant p <= q && (p < q ==> q <= |s|) && forall j :: p <= j < q ==> IsDigit(s[j])
      invariant n == if p < q then Value(s[p..q]) else 0
      decreases p + |s| - q
    {
      var next := q + 1;
      assert s[p..next][..q - p] == s[p..q];
      n := 10 * n + DigitValue(At(s, q));
      q := next;
    }
    if p <= |s| {
      DigitsGrow(s, p, q);
      assert s[p..q] + "" == s[p..q];
    }
  }

  /** The sizes of an array of arrays, outermost first, and what the innermost array consists of. */
  function Sizes(t: Type): seq<nat> {
    if t.Array? then [t.size] + Sizes(t.element) else []
  }

  function Innermost(t: Type): (e: Type)
    ensures !e.Array? && (WellFormed(t) ==> WellFormed(e))
    ensures e == t || (t.Array? && e < t)
  {
    if t.Array? then Innermost(t.element) else t
  }

  function Nest(e: Type, sizes: seq<nat>): Type {
    if sizes == [] then e else Array(Nest(e, sizes[1..]), sizes[0])
  }

  lemma {:induction false} NestSizes(t: Type)
    ensures Nest(Innermost(t), Sizes(t)) == t
  {
    if t.Array? {
      NestSizes(t.element);
      assert Sizes(t)[1..] == Sizes(t.element);
    }
  }

  function SizeText(sizes: seq<nat>): string {
    if sizes == [] then "" else Decimal(sizes[0]) + "_" + SizeText(sizes[1..])
  }

  lemma {:induction false} ArraySign(t: Type)
    ensures t.Array? ==> Sign(t) == "A" + (SizeText(Sizes(t)) + Sign(Innermost(t)))
  {
    hide Sign, Decimal, SizeText, Sizes, Innermost;
    if t.Array? {
      var e := t.element;
      ArraySign(e);
      ArrayHead(t);
      SizesHead(t);
      var n, x, y := Decimal(t.size), SizeText(Sizes(e)), Sign(Innermost(e));
      var rest := if e.Array? then Sign(e)[1..] else Sign(e);
      assert rest == x + y;
      Associate("A", n, "_", x, y);
    }
  }

  lemma Associate(a: string, n: string, u: string, x: string, y: string)
    ensures a + n + u + (x + y) == a + ((n + u + x) + y)
  {
    assert a + n + u + (x + y) == a + n + u + x + y;
  }

  lemma SizesHead(t: Type)
    requires t.Array?
    ensures SizeText(Sizes(t)) == Decimal(t.size) + "_" + SizeText(Sizes(t.element))
    ensures Innermost(t) == Innermost(t.element)
    ensures !t.element.Array? ==> SizeText(Sizes(t.element)) == "" && Innermost(t.element) == t.element
  {
    assert Sizes(t)[1..] == Sizes(t.element);
  }

  lemma ArrayHead(t: Type)
    requires t.Array?
    ensures Sign(t) == "A" + Decimal(t.size) + "_" + (if t.element.Array? then Sign(t.element)[1..] else Sign(t.element))
  {
  }

  // ---- the reader ----

  /** What is read for the types that are words, and for numbers, whatever follows; other letters begin no type. */
  ghost predicate ReadsSimple(s: string, p: nat, r: Option<Type>)
    requires p < |s|
  {
    var w := Value(DigitsAt(s, p + 1));
    match s[p]
    case 'v' => r == Some(Void)
    case 'a' => r == Some(UPtr)
    case 'b' => r == Some(Bool)
    case 'i' => r == if w == 8 || w == 16 || w == 32 || w == 64 then Some(Int(w, true)) else None
    case 'u' => r == if w == 8 || w == 16 || w == 32 || w == 64 then Some(Int(w, false)) else None
    case 'f' => r == if w == 32 || w == 64 || w == 128 then Some(FP(w)) else None
    case 'P' => true
    case 'A' => r.Some? ==> IsDigit(At(s, p + 1))
    case 'F' => r.Some? ==> ReadsFunction(s, p, r.value)
    case _ => r == None
  }

  /** The letter for variadic functions, the letter behind the result type, and the closing one. */
  ghost predicate ReadsFunction(s: string, p: nat, t: Type) {
    && t.Fn? && (t.variadic <==> At(s, p + 1) == 'V')
    && var q := p + (if t.variadic then 2 else 1) + |Sign(t.result)|;
       if t.params == [] then At(s, q) == 'T' else At(s, q) == '_' && At(s, q + 1 + |SignAll(t.params)|) == 'T'
  }

  /**
   Read the type at `p`. Where an assertion of the compiler fails, nothing is returned. The
   ghost parameter is a type whose signature stands there, if there is one.
   */
  method From(s: string, p: nat, ghost t: Option<Type>) returns (r: Option<Type>)
    requires t.Some? ==> Signed(s, p, t.value)
    ensures t.Some? ==> r == t
    ensures r.Some? ==> p < |s| && Begins(r.value, s[p])
    ensures p < |s| ==> ReadsSimple(s, p, r)
    decreases |s| - p, 1
  {
    if t.Some? {
      StandsAt(s, p, Sign(t.value), 0);
      FirstLetter(t.value);
    }
    if p >= |s| {
      return None;
    }
    match s[p] {
      case 'v' => r := Some(Void);
      case 'a' => r := Some(UPtr);
      case 'b' => r := Some(Bool);
      case 'i' =>
        var w := ReadWidth(s, p, t);
        r := if w in {8, 16, 32, 64} then Some(Int(w, true)) else None;
      case 'u' =>
        var w := ReadWidth(s, p, t);
        r := if w in {8, 16, 32, 64} then Some(Int(w, false)) else None;
      case 'f' =>
        var w := ReadWidth(s, p, t);
        r := if w in {32, 64, 128} then Some(FP(w)) else None;
      case 'P' =>
        ghost var d := if t.Some? then Some(t.value.data) else None;
        if t.Some? {
          PtrInside(s, p, t.value);
        }
        var data := From(s, p + 1, d);
        r := if data.Some? then Some(Ptr(data.value)) else None;
      case 'A' => r := FromArray(s, p, t);
      case 'F' => r := FromFunction(s, p, t);
      case _ => r := None;
    }
  }

  /** The letter that the signature of a type begins with. */
  ghost predicate Begins(t: Type, c: char) {
    match t
    case Void => c == 'v'
    case UPtr => c == 'a'
    case Bool => c == 'b'
    case Int(w, signed) => c == if signed then 'i' else 'u'
    case FP(_) => c == 'f'
    case Ptr(_) => c == 'P'
    case Array(_, _) => c == 'A'
    case Fn(_, _, _) => c == 'F'
  }

  lemma FirstLetter(t: Type)
    ensures Begins(t, Sign(t)[0])
  {
  }

  /** The words and letters of signatures. */
  lemma Texts(t: Type, n: nat, ps: seq<Type>)
    ensures Sign(Void) == "void" && Sign(UPtr) == "addr" && Sign(Bool) == "bool"
    ensures Sign(Int(8, true)) == "i8" && Sign(Int(16, true)) == "i16" && Sign(Int(32, true)) == "i32" && Sign(Int(64, true)) == "i64"
    ensures Sign(Int(8, false)) == "u8" && Sign(Int(16, false)) == "u16" && Sign(Int(32, false)) == "u32" && Sign(Int(64, false)) == "u64"
    ensures Sign(FP(32)) == "f32" && Sign(FP(64)) == "f64" && Sign(FP(128)) == "f128"
    ensures WellFormed(Void) && WellFormed(UPtr) && WellFormed(Bool) && (WellFormed(t) ==> WellFormed(Ptr(t)) && WellFormed(Array(t, 0x7fff_ffff)))
    ensures Sign(Ptr(t)) == "P" + Sign(t)
    ensures !t.Array? ==> Sign(Array(t, n)) == "A" + Decimal(n) + "_" + Sign(t)
    ensures t.Array? ==> Sign(Array(t, n)) == "A" + Decimal(n) + "_" + Sign(t)[1..]
    ensures Sign(Fn(false, t, [])) == "F" + Sign(t) + "T" && Sign(Fn(true, t, [])) == "FV" + Sign(t) + "T"
    ensures ps != [] ==> Sign(Fn(false, t, ps)) == "F" + Sign(t) + "_" + SignAll(ps) + "T" && Sign(Fn(true, t, ps)) == "FV" + Sign(t) + "_" + SignAll(ps) + "T"
  {
    hide Decimal, Sign, SignAll;
    WidthText(8);
    WidthText(16);
    WidthText(32);
    WidthText(64);
    WidthText(128);
    ShortNumbers();
    WordText();
    CompoundText(t, n);
    SignVariadic(t, []);
    SignVariadic(t, ps);
    if ps != [] {
      Associate4("F", Sign(t), "_" + SignAll(ps), "T");
      Associate4("FV", Sign(t), "_" + SignAll(ps), "T");
    } else {
      Associate4("F", Sign(t), "", "T");
      Associate4("FV", Sign(t), "", "T");
    }
    Spelled("F" + Sign(t), "_", SignAll(ps));
    Spelled("FV" + Sign(t), "_", SignAll(ps));
    assert "F" + Sign(t) + "" == "F" + Sign(t) && "FV" + Sign(t) + "" == "FV" + Sign(t);
  }

  lemma Spelled(a: string, b: string, c: string)
    ensures a + b + c == a + (b + c)
  {
  }

  lemma WordText()
    ensures Sign(Void) == "void" && Sign(UPtr) == "addr" && Sign(Bool) == "bool"
  {
  }

  lemma WidthText(w: nat)
    ensures Sign(Int(w, true)) == "i" + Decimal(w) && Sign(Int(w, false)) == "u" + Decimal(w) && Sign(FP(w)) == "f" + Decimal(w)
  {
    hide Decimal;
  }

  lemma CompoundText(t: Type, n: nat)
    ensures Sign(Ptr(t)) == "P" + Sign(t)
    ensures !t.Array? ==> Sign(Array(t, n)) == "A" + Decimal(n) + "_" + Sign(t)
    ensures t.Array? ==> Sign(Array(t, n)) == "A" + Decimal(n) + "_" + Sign(t)[1..]
  {
    hide Decimal;
  }

  lemma ShortNumbers()
    ensures Decimal(8) == "8" && Decimal(16) == "16" && Decimal(32) == "32" && Decimal(64) == "64" && Decimal(128) == "128"
  {
    OneDigit(8, '8');
    OneDigit(1, '1');
    MoreDigits(16, '6');
    OneDigit(3, '3');
    MoreDigits(32, '2');
    OneDigit(6, '6');
    MoreDigits(64, '4');
    MoreDigits(12, '2');
    MoreDigits(128, '8');
  }

  lemma OneDigit(n: nat, c: char)
    requires n < 10 && c as int == 48 + n
    ensures Decimal(n) == [c]
  {
  }

  lemma MoreDigits(n: nat, c: char)
    requires n >= 10 && c as int == 48 + n % 10
    ensures Decimal(n) == Decimal(n / 10) + [c]
  {
  }

  lemma SignVariadic(t: Type, ps: seq<Type>)
    ensures var rest := Sign(t) + (if ps == [] then "" else "_" + SignAll(ps)) + "T";
            Sign(Fn(false, t, ps)) == "F" + rest && Sign(Fn(true, t, ps)) == "FV" + rest
  {
    var q := if ps == [] then "" else "_" + SignAll(ps);
    FnText(Fn(false, t, ps));
    FnText(Fn(true, t, ps));
    assert "F" + "" == "F" && "F" + "V" == "FV";
    hide Sign, SignAll;
    Associate4("F", Sign(t), q, "T");
    Associate4("FV", Sign(t), q, "T");
  }

  lemma Associate4(a: string, b: string, c: string, d: string)
    ensures a + b + c + d == a + (b + c + d)
  {
    assert a + b + c + d == a + (b + c) + d;
  }

  method ReadWidth(s: string, p: nat, ghost t: Option<Type>) returns (w: nat)
    requires t.Some? ==> Signed(s, p, t.value) && (t.value.Int? || t.value.FP?)
    ensures t.Some? ==> w == t.value.bitWidth
    ensures w == Value(DigitsAt(s, p + 1))
  {
    if t.Some? {
      ValueOfDecimal(t.value.bitWidth);
      WidthStands(s, p, t.value);
      DigitsStandAt(s, p + 1, Decimal(t.value.bitWidth));
    }
    w := ReadNumber(s, p + 1);
  }

  lemma WidthStands(s: string, p: nat, t: Type)
    requires Signed(s, p, t) && (t.Int? || t.FP?)
    ensures Stands(s, p + 1, Decimal(t.bitWidth)) && !IsDigit(At(s, p + 1 + |Decimal(t.bitWidth)|))
  {
    var head := if t.FP? then "f" else if t.signed then "i" else "u";
    assert Sign(t) == head + Decimal(t.bitWidth);
    StandsParts(s, p, head, Decimal(t.bitWidth));
  }

  lemma PtrInside(s: string, p: nat, t: Type)
    requires Signed(s, p, t) && t.Ptr?
    ensures Signed(s, p + 1, t.data)
  {
    assert Sign(t) == "P" + Sign(t.data);
    StandsParts(s, p, "P", Sign(t.data));
  }

  /** Go forward to the element type, then back over the sizes, innermost first. */
  method FromArray(s: string, p: nat, ghost t: Option<Type>) returns (r: Option<Type>)
    requires p < |s| && s[p] == 'A'
    requires t.Some? ==> Signed(s, p, t.value) && t.value.Array?
    ensures t.Some? ==> r == t
    ensures r.Some? ==> r.value.Array? && IsDigit(At(s, p + 1))
    decreases |s| - p, 0
  {
    if t.Some? {
      SizeStandsFirst(s, p, t.value);
    }
    if !IsDigit(At(s, p + 1)) {
      return None;
    }
    var q := SkipSizes(s, p, t);
    if q >= |s| {
      return None;
    }
    ghost var e := if t.Some? then Some(Innermost(t.value)) else None;
    var element := From(s, q, e);
    if element.None? {
      return None;
    }
    r := BackOverSizes(s, p, q - 1, element.value, t);
  }

  /** The position of the first letter after the sizes. */
  method SkipSizes(s: string, p: nat, ghost t: Option<Type>) returns (q: nat)
    requires p < |s| && s[p] == 'A'
    requires t.Some? ==> Signed(s, p, t.value) && t.value.Array?
    ensures p < q <= |s|
    ensures t.Some? ==> q == p + 1 + |SizeText(Sizes(t.value))| && q < |s| && Signed(s, q, Innermost(t.value))
  {
    hide Stands, Sign, SizeText, Sizes, Innermost;
    ghost var text := if t.Some? then SizeText(Sizes(t.value)) else "";
    if t.Some? {
      ArrayStands(s, p, t.value);
      StandsIn(s, p + 1 + |text|, Sign(Innermost(t.value)));
      NoLetters(Sizes(t.value));
      StandsAt(s, p + 1 + |text|, Sign(Innermost(t.value)), 0);
    }
    q := p + 1;
    while q < |s| && !IsAlpha(s[q])
      invariant p < q <= |s|
      invariant t.Some? ==> q <= p + 1 + |text|
    {
      q := q + 1;
    }
    if t.Some? {
      TextEnds(s, p + 1, text, q);
    }
  }

  /** A letter, or the end, is not found inside a text without letters. */
  lemma TextEnds(s: string, p: nat, text: string, q: nat)
    requires Stands(s, p, text) && p + |text| < |s| && p <= q <= |s| && (q < |s| ==> IsAlpha(s[q]))
    requires forall k :: 0 <= k < |text| ==> !IsAlpha(text[k])
    ensures q >= p + |text|
  {
    forall j | p <= j < p + |text|
      ensures !IsAlpha(s[j])
    {
      StandsAt(s, p, text, j - p);
    }
  }

  lemma SizeStandsFirst(s: string, p: nat, t: Type)
    requires Signed(s, p, t) && t.Array?
    ensures IsDigit(At(s, p + 1))
  {
    hide Sign, Stands, Decimal;
    ArrayHead(t);
    var rest := if t.element.Array? then Sign(t.element)[1..] else Sign(t.element);
    assert Sign(t) == "A" + (Decimal(t.size) + ("_" + rest));
    StandsParts(s, p, "A", Decimal(t.size) + ("_" + rest));
    StandsParts(s, p + 1, Decimal(t.size), "_" + rest);
    StandsAt(s, p + 1, Decimal(t.size), 0);
  }

  lemma InnermostWell(t: Type)
    requires WellFormed(t)
    ensures WellFormed(Innermost(t))
  {
  }

  lemma ArrayStands(s: string, p: nat, t: Type)
    requires Signed(s, p, t) && t.Array?
    ensures var text := SizeText(Sizes(t));
            Stands(s, p + 1, text) && Signed(s, p + 1 + |text|, Innermost(t))
  {
    hide Sign, SizeText, Sizes, Stands, Innermost;
    ArraySign(t);
    InnermostWell(t);
    var text, e := SizeText(Sizes(t)), Sign(Innermost(t));
    assert |"A"| == 1;
    StandsParts(s, p, "A", text + e);
    StandsParts(s, p + 1, text, e);
    assert p + |Sign(t)| == p + 1 + |text| + |e|;
  }

  lemma {:induction false} NoLetters(sizes: seq<nat>)
    ensures forall k :: 0 <= k < |SizeText(sizes)| ==> !IsAlpha(SizeText(sizes)[k])
  {
    if sizes != [] {
      NoLetters(sizes[1..]);
    }
  }

  lemma SizeTextSum(a: seq<nat>, b: seq<nat>)
    ensures SizeText(a + b) == SizeText(a) + SizeText(b)
  {
    if a == [] {
      assert a + b == b;
    } else {
      assert (a + b)[1..] == a[1..] + b;
      SizeTextSum(a[1..], b);
      assert Decimal(a[0]) + "_" + (SizeText(a[1..]) + SizeText(b)) == Decimal(a[0]) + "_" + SizeText(a[1..]) + SizeText(b);
    }
  }

  /** The size that ends at `q`: the last one of `sizes[..j]`, which stand from `p + 1` on. */
  lemma LastSizeStands(s: string, p: nat, sizes: seq<nat>, j: nat)
    requires 0 < j <= |sizes| && Stands(s, p + 1, SizeText(sizes))
    ensures var start, digits, q := p + |SizeText(sizes[..j - 1])|, Decimal(sizes[j - 1]), p + |SizeText(sizes[..j])|;
            start + 1 + |digits| == q < |s| && Stands(s, start + 1, digits) && At(s, q) == '_' && (start > p ==> At(s, start) == '_')
  {
    hide Stands, SizeText, Decimal;
    var a, one, c := sizes[..j - 1], [sizes[j - 1]], sizes[j..];
    assert sizes == a + (one + c) && sizes[..j] == a + one;
    SizeTextSum(a, one + c);
    SizeTextSum(one, c);
    SizeTextSum(a, one);
    OneSize(sizes[j - 1]);
    var ta, digits := SizeText(a), Decimal(sizes[j - 1]);
    var start := p + 1 + |ta|;
    StandsParts(s, p + 1, ta, SizeText(one) + SizeText(c));
    StandsParts(s, start, SizeText(one), SizeText(c));
    StandsParts(s, start, digits, "_");
    StandsIn(s, start + |digits|, "_");
    StandsAt(s, start + |digits|, "_", 0);
    LastUnderscore(a);
    if ta != [] {
      StandsAt(s, p + 1, ta, |ta| - 1);
      NotEmptyText(a);
    }
  }

  lemma NotEmptyText(sizes: seq<nat>)
    requires SizeText(sizes) != []
    ensures sizes != []
  {
  }

  lemma StandsIn(s: string, p: nat, w: string)
    requires Stands(s, p, w)
    ensures p + |w| <= |s|
  {
  }

  lemma OneSize(n: nat)
    ensures SizeText([n]) == Decimal(n) + "_"
  {
    assert [n][1..] == [];
    assert Decimal(n) + "_" + "" == Decimal(n) + "_";
  }

  lemma {:induction false} LastUnderscore(sizes: seq<nat>)
    ensures sizes != [] ==> SizeText(sizes) != [] && SizeText(sizes)[|SizeText(sizes)| - 1] == '_'
  {
    if sizes != [] {
      LastUnderscore(sizes[1..]);
    }
  }

  /** From the last underscore back to the `A`, one size at a time. */
  method BackOverSizes(s: string, p: nat, q0: nat, element: Type, ghost t: Option<Type>) returns (r: Option<Type>)
    requires p < |s| && s[p] == 'A' && p <= q0 < |s|
    requires t.Some? ==> Signed(s, p, t.value) && t.value.Array? && element == Innermost(t.value) && q0 == p + |SizeText(Sizes(t.value))|
    ensures t.Some? ==> r == t
    ensures r.Some? ==> r.value.Array?
    ensures r.Some? <==> s[q0] == '_' && forall j :: p < j < q0 ==> IsDigit(s[j]) || s[j] == '_' || s[j] == 'A'
  {
    hide Stands, SizeText, Decimal, Sign, Sizes, Nest, Value, Innermost;
    ghost var sizes: seq<nat> := if t.Some? then Sizes(t.value) else [];
    ghost var j: nat := |sizes|;
    if t.Some? {
      ArrayStands(s, p, t.value);
      SizesNotEmpty(t.value);
      NestStart(element, t.value);
      LastSizeStands(s, p, sizes, j);
      assert sizes[..j] == sizes;
    }
    if s[q0] != '_' {
      return None;
    }
    var q, ty := q0, element;
    while q > p
      invariant p <= q <= q0 && (q < q0 ==> ty.Array?)
      invariant forall j :: q <= j < q0 && j > p ==> IsDigit(s[j]) || s[j] == '_' || s[j] == 'A'
      invariant t.Some? ==> j <= |sizes| && q == p + |SizeText(sizes[..j])| && ty == Nest(element, sizes[j..])
      decreases q
    {
      if t.Some? {
        SomethingLeft(sizes, j);
        LastSizeStands(s, p, sizes, j);
      }
      var ok, size;
      q, ok, size := ReadSizeBefore(s, p, q, if t.Some? then Some(sizes[j - 1]) else None);
      if !ok {
        return None;
      }
      ty := Array(ty, size);
      if t.Some? {
        NestStep(element, sizes, j);
        j := j - 1;
      }
    }
    r := Some(ty);
    if t.Some? {
      NothingLeft(sizes, j);
      NestEnd(element, t.value);
    }
  }

  lemma SizesNotEmpty(t: Type)
    requires t.Array?
    ensures Sizes(t) != []
  {
  }

  lemma NestStart(e: Type, t: Type)
    ensures Nest(e, Sizes(t)[|Sizes(t)|..]) == e
  {
  }

  lemma NestEnd(e: Type, t: Type)
    requires e == Innermost(t)
    ensures Nest(e, Sizes(t)[0..]) == t
  {
    NestSizes(t);
    assert Sizes(t)[0..] == Sizes(t);
  }

  lemma NestStep(e: Type, sizes: seq<nat>, j: nat)
    requires 0 < j <= |sizes|
    ensures Nest(e, sizes[j - 1..]) == Array(Nest(e, sizes[j..]), sizes[j - 1])
  {
    assert sizes[j - 1..][1..] == sizes[j..];
  }

  lemma SomethingLeft(sizes: seq<nat>, j: nat)
    requires j <= |sizes| && SizeText(sizes[..j]) != []
    ensures j > 0
  {
  }

  lemma NothingLeft(sizes: seq<nat>, j: nat)
    requires j <= |sizes| && SizeText(sizes[..j]) == []
    ensures j == 0
  {
    LastUnderscore(sizes[..j]);
  }

  /** One size, the one that ends before `q0`. */
  method ReadSizeBefore(s: string, p: nat, q0: nat, ghost size: Option<nat>) returns (q: nat, ok: bool, n: nat)
    requires p < q0 < |s| && s[p] == 'A'
    requires size.Some? ==>
               var start := q0 - 1 - |Decimal(size.value)|;
               start >= p && Stands(s, start + 1, Decimal(size.value)) && s[q0] == '_' && (start > p ==> s[start] == '_')
    ensures p <= q < q0
    ensures size.Some? ==> ok && n == size.value && q == q0 - 1 - |Decimal(size.value)|
    ensures (forall j :: q < j < q0 ==> IsDigit(s[j])) && !IsDigit(s[q]) && (ok <==> s[q] == 'A' || s[q] == '_') && n == Value(DigitsAt(s, q + 1))
  {
    hide Decimal, Value;
    ghost var digits := if size.Some? then Decimal(size.value) else "";
    ghost var mark: nat := if size.Some? then q0 - 1 - |digits| else p;
    if size.Some? {
      ValueOfDecimal(size.value);
      DigitsStand(s, mark + 1, digits);
      DigitsStandAt(s, mark + 1, digits);
    }
    q := PreviousMark(s, p, q0, mark);
    ok := s[q] == 'A' || s[q] == '_';
    n := ReadNumber(s, q + 1);
  }

  lemma DigitsStand(s: string, p: nat, digits: string)
    requires Stands(s, p, digits) && forall k :: 0 <= k < |digits| ==> IsDigit(digits[k])
    ensures p + |digits| <= |s| && forall j :: p <= j < p + |digits| ==> IsDigit(s[j])
  {
    forall j | p <= j < p + |digits|
      ensures IsDigit(s[j])
    {
      StandsAt(s, p, digits, j - p);
    }
  }

  /** Back over digits. */
  method PreviousMark(s: string, p: nat, q0: nat, ghost mark: nat) returns (q: nat)
    requires p < q0 < |s| && s[p] == 'A' && p <= mark < q0
    ensures p <= q < q0 && !IsDigit(s[q]) && forall k :: q < k < q0 ==> IsDigit(s[k])
    ensures (forall k :: mark < k < q0 ==> IsDigit(s[k])) && !IsDigit(s[mark]) ==> q == mark
  {
    q := q0 - 1;
    while IsDigit(s[q])
      invariant p <= q < q0 && forall k :: q < k < q0 ==> IsDigit(s[k])
      decreases q
    {
      q := q - 1;
    }
  }

  // ---- function types ----

  /** What follows the result type. */
  function ParamText(ps: seq<Type>): (w: string)
    ensures w != [] && !IsDigit(w[0]) && (w[0] == '_' <==> ps != [])
  {
    (if ps == [] then "" else "_" + SignAll(ps)) + "T"
  }

  lemma FnWell(t: Type)
    requires t.Fn? && WellFormed(t)
    ensures WellFormed(t.result)
  {
  }

  lemma FnParts(s: string, p: nat, t: Type)
    requires t.Fn? && Stands(s, p, Sign(t))
    ensures var v, r, ps := (if t.variadic then "V" else ""), Sign(t.result), ParamText(t.params);
            && Stands(s, p + 1, v) && Stands(s, p + 1 + |v|, r) && Stands(s, p + 1 + |v| + |r|, ps) && |Sign(t)| == 1 + |v| + |r| + |ps|
  {
    hide Stands, Sign, ParamText;
    var v, r, ps := (if t.variadic then "V" else ""), Sign(t.result), ParamText(t.params);
    FnHead(t);
    assert |"F"| == 1;
    StandsParts(s, p, "F", v + (r + ps));
    StandsParts(s, p + 1, v, r + ps);
    StandsParts(s, p + 1 + |v|, r, ps);
  }

  lemma FnStands(s: string, p: nat, t: Type)
    requires Signed(s, p, t) && t.Fn?
    ensures t.variadic ==> At(s, p + 1) == 'V'
    ensures !t.variadic ==> At(s, p + 1) != 'V'
    ensures var start := p + (if t.variadic then 2 else 1);
            Signed(s, start, t.result) && Stands(s, start + |Sign(t.result)|, ParamText(t.params))
  {
    hide Stands, Sign, ParamText, WellFormed, At, IsDigit, SignAll;
    FnWell(t);
    FnParts(s, p, t);
    var v, r := (if t.variadic then "V" else ""), Sign(t.result);
    StandsAt(s, p + 1 + |v| + |r|, ParamText(t.params), 0);
    if t.variadic {
      StandsAt(s, p + 1, v, 0);
    } else {
      StandsAt(s, p + 1, r, 0);
      FirstLetter(t.result);
    }
  }

  lemma FnHead(t: Type)
    requires t.Fn?
    ensures Sign(t) == "F" + ((if t.variadic then "V" else "") + (Sign(t.result) + ParamText(t.params)))
  {
    var v, r := (if t.variadic then "V" else ""), Sign(t.result);
    var q := if t.params == [] then "" else "_" + SignAll(t.params);
    FnText(t);
    hide Sign, SignAll;
    Associate5("F", v, r, q, "T");
  }

  lemma FnText(t: Type)
    requires t.Fn?
    ensures Sign(t) == "F" + (if t.variadic then "V" else "") + Sign(t.result) + (if t.params == [] then "" else "_" + SignAll(t.params)) + "T"
  {
  }

  lemma Associate5(a: string, b: string, c: string, d: string, e: string)
    ensures a + b + c + d + e == a + (b + (c + (d + e)))
  {
    assert a + b + c + d + e == a + b + c + (d + e);
    assert a + b + c + (d + e) == a + b + (c + (d + e));
  }

  /** The first of the remaining parameters stands at `p`, and after it the others. */
  lemma ParamStands(s: string, p: nat, ps: seq<Type>)
    requires ps != [] && Stands(s, p, SignAll(ps) + "T") && forall k :: 0 <= k < |ps| ==> WellFormed(ps[k])
    ensures Signed(s, p, ps[0]) && Stands(s, p + |Sign(ps[0])|, SignAll(ps[1..]) + "T")
    ensures At(s, p) != 'T' && (ps[1..] != [] ==> At(s, p + |Sign(ps[0])|) != 'T')
    ensures ps[1..] == [] ==> At(s, p + |Sign(ps[0])|) == 'T'
  {
    hide Sign, SignAll, Stands, WellFormed;
    SignAllHead(ps);
    ParamsEnd(ps[1..]);
    var first, rest := Sign(ps[0]), SignAll(ps[1..]) + "T";
    assert SignAll(ps) + "T" == first + rest;
    StandsParts(s, p, first, rest);
    StandsAt(s, p, first, 0);
    FirstLetter(ps[0]);
    StandsAt(s, p + |first|, rest, 0);
  }

  lemma SignAllHead(ps: seq<Type>)
    requires ps != []
    ensures SignAll(ps) == Sign(ps[0]) + SignAll(ps[1..])
  {
  }

  lemma ParamsEnd(ps: seq<Type>)
    ensures var w := SignAll(ps) + "T"; !IsDigit(w[0]) && (w[0] == 'T' <==> ps == [])
  {
    if ps != [] {
      FirstLetter(ps[0]);
      assert (SignAll(ps) + "T")[0] == Sign(ps[0])[0];
    }
  }

  method FromFunction(s: string, p: nat, ghost t: Option<Type>) returns (r: Option<Type>)
    requires p < |s| && s[p] == 'F'
    requires t.Some? ==> Signed(s, p, t.value) && t.value.Fn?
    ensures t.Some? ==> r == t
    ensures r.Some? ==> ReadsFunction(s, p, r.value)
    decreases |s| - p, 0
  {
    hide Stands, Sign, SignAll;
    ghost var e := if t.Some? then Some(t.value.result) else None;
    if t.Some? {
      FnStands(s, p, t.value);
    }
    var q := p + 1;
    var isVariadic := At(s, q) == 'V';
    if isVariadic {
      q := q + 1;
    }
    var rtype := From(s, q, e);
    if rtype.None? {
      return None;
    }
    q := q + |Sign(rtype.value)|;
    if t.Some? {
      StandsAt(s, q, ParamText(t.value.params), 0);
      ParamTextIs(t.value.params);
    }
    if At(s, q) != '_' && At(s, q) != 'T' {
      return None;
    }
    if At(s, q) == 'T' {
      return Some(Fn(isVariadic, rtype.value, []));
    }
    ghost var ps := if t.Some? then Some(t.value.params) else None;
    if t.Some? {
      StandsParts(s, q, "_", SignAll(ps.value) + "T");
    }
    var paramTypes := FromParams(s, q + 1, ps);
    if paramTypes.Some? {
      return Some(Fn(isVariadic, rtype.value, paramTypes.value));
    }
    return None;
  }

  lemma ParamTextIs(ps: seq<Type>)
    ensures if ps == [] then ParamText(ps) == "T" else ParamText(ps) == "_" + (SignAll(ps) + "T")
  {
    if ps != [] {
      assert "_" + SignAll(ps) + "T" == "_" + (SignAll(ps) + "T");
    }
  }

  /** The parameter types up to the closing letter; there is at least one. */
  method FromParams(s: string, p: nat, ghost ps: Option<seq<Type>>) returns (r: Option<seq<Type>>)
    requires p <= |s|
    requires ps.Some? ==> ps.value != [] && Stands(s, p, SignAll(ps.value) + "T") && forall k :: 0 <= k < |ps.value| ==> WellFormed(ps.value[k])
    ensures ps.Some? ==> r == ps
    ensures r.Some? ==> r.value != [] && At(s, p + |SignAll(r.value)|) == 'T'
    decreases |s| - p, 2
  {
    NoSigns();
    hide Stands, Sign, SignAll, WellFormed;
    ghost var all := if ps.Some? then ps.value else [];
    var q, paramTypes := p, [];
    while true
      invariant q == p + |SignAll(paramTypes)|
      invariant ps.Some? ==> |paramTypes| < |all| && paramTypes == all[..|paramTypes|] && Stands(s, q, SignAll(all[|paramTypes|..]) + "T")
      decreases |s| - q
    {
      ghost var rest := all[if ps.Some? then |paramTypes| else 0..];
      ghost var e: Option<Type> := if ps.Some? then Some(rest[0]) else None;
      if ps.Some? {
        ParamStands(s, q, rest);
      }
      var paramType := From(s, q, e);
      if paramType.None? {
        return None;
      }
      SignAllNext(paramTypes, paramType.value);
      paramTypes := paramTypes + [paramType.value];
      q := q + |Sign(paramType.value)|;
      if ps.Some? {
        assert rest[1..] == all[|paramTypes|..];
        assert paramTypes == all[..|paramTypes|];
      }
      if At(s, q) == 'T' {
        if ps.Some? {
          NoneLeft(all, |paramTypes|);
        }
        return Some(paramTypes);
      }
    }
  }

  lemma NoSigns()
    ensures SignAll([]) == ""
  {
  }

  lemma {:induction false} SignAllNext(ts: seq<Type>, t: Type)
    ensures |SignAll(ts + [t])| == |SignAll(ts)| + |Sign(t)|
  {
    hide Sign;
    if ts == [] {
      assert ([] + [t])[1..] == [];
    } else {
      assert (ts + [t])[1..] == ts[1..] + [t];
      SignAllNext(ts[1..], t);
    }
  }

  lemma NoneLeft(all: seq<Type>, n: nat)
    requires n <= |all| && all[n..] == []
    ensures all[..n] == all
  {
  }

  // ---- no two types share a signature ----

  lemma DigitsUnique(s: string, p: nat, a: string, b: string)
    requires Stands(s, p, a) && !IsDigit(At(s, p + |a|)) && (forall k :: 0 <= k < |a| ==> IsDigit(a[k]))
    requires Stands(s, p, b) && !IsDigit(At(s, p + |b|)) && (forall k :: 0 <= k < |b| ==> IsDigit(b[k]))
    ensures a == b
  {
    if |a| < |b| {
      StandsAt(s, p, b, |a|);
    } else if |b| < |a| {
      StandsAt(s, p, a, |b|);
    }
  }

  lemma DecimalUnique(s: string, p: nat, m: nat, n: nat)
    requires Stands(s, p, Decimal(m)) && !IsDigit(At(s, p + |Decimal(m)|)) && Stands(s, p, Decimal(n)) && !IsDigit(At(s, p + |Decimal(n)|))
    ensures m == n
  {
    DigitsUnique(s, p, Decimal(m), Decimal(n));
    ValueOfDecimal(m);
    ValueOfDecimal(n);
  }

  /** The first size, and what follows it. */
  lemma FirstSizeStands(s: string, p: nat, sizes: seq<nat>)
    requires sizes != [] && Stands(s, p, SizeText(sizes))
    ensures var d := Decimal(sizes[0]);
            Stands(s, p, d) && At(s, p + |d|) == '_' && Stands(s, p + |d| + 1, SizeText(sizes[1..])) && IsDigit(At(s, p))
    ensures |SizeText(sizes)| == |Decimal(sizes[0])| + 1 + |SizeText(sizes[1..])|
  {
    hide SizeText, Decimal, Stands;
    SizeTextHead(sizes);
    var d, rest := Decimal(sizes[0]), SizeText(sizes[1..]);
    assert d + "_" + rest == d + ("_" + rest);
    StandsParts(s, p, d, "_" + rest);
    StandsParts(s, p + |d|, "_", rest);
    StandsAt(s, p + |d|, "_", 0);
    StandsAt(s, p, d, 0);
  }

  lemma SizeTextHead(sizes: seq<nat>)
    requires sizes != []
    ensures SizeText(sizes) == Decimal(sizes[0]) + "_" + SizeText(sizes[1..])
  {
  }

  /** Sizes followed by a letter are determined. */
  lemma {:induction false} SizesUnique(s: string, p: nat, a: seq<nat>, b: seq<nat>)
    requires Stands(s, p, SizeText(a)) && IsAlpha(At(s, p + |SizeText(a)|))
    requires Stands(s, p, SizeText(b)) && IsAlpha(At(s, p + |SizeText(b)|))
    ensures a == b
    decreases |a|
  {
    hide Stands, Decimal;
    if a != [] {
      FirstSizeStands(s, p, a);
    }
    if b != [] {
      FirstSizeStands(s, p, b);
    }
    if a != [] && b != [] {
      DecimalUnique(s, p, a[0], b[0]);
      SizesUnique(s, p + |Decimal(a[0])| + 1, a[1..], b[1..]);
      assert a == [a[0]] + a[1..] && b == [b[0]] + b[1..];
    }
  }

  /** At one place of a string at most one type can stand. */
  lemma {:induction false} Unique(s: string, p: nat, t: Type, u: Type)
    requires Signed(s, p, t) && Signed(s, p, u)
    ensures t == u
    decreases t, 1, 1
  {
    hide Stands, Sign, Decimal, SizeText, Sizes, Innermost, Nest;
    StandsAt(s, p, Sign(t), 0);
    StandsAt(s, p, Sign(u), 0);
    FirstLetter(t);
    FirstLetter(u);
    match t
    case Int(_, _) => WidthUnique(s, p, t, u);
    case FP(_) => WidthUnique(s, p, t, u);
    case Ptr(d) =>
      PtrInside(s, p, t);
      PtrInside(s, p, u);
      Unique(s, p + 1, d, u.data);
    case Array(_, _) =>
      ArrayParts(s, p, t, u);
      InnermostSmaller(t);
      Unique(s, p + 1 + |SizeText(Sizes(t))|, Innermost(t), Innermost(u));
      NestSizes(t);
      NestSizes(u);
    case Fn(_, _, _) => FnUnique(s, p, t, u);
    case _ =>
  }

  lemma {:induction false} FnUnique(s: string, p: nat, t: Type, u: Type)
    requires Signed(s, p, t) && Signed(s, p, u) && t.Fn? && u.Fn?
    ensures t == u
    decreases t, 1, 0
  {
    hide Stands, Sign, ParamText;
    FnStands(s, p, t);
    FnStands(s, p, u);
    var q := p + (if t.variadic then 2 else 1);
    Unique(s, q, t.result, u.result);
    ParamTextsUnique(s, q + |Sign(t.result)|, t.params, u.params, t);
  }

  lemma WidthUnique(s: string, p: nat, t: Type, u: Type)
    requires Signed(s, p, t) && Signed(s, p, u) && ((t.Int? && u.Int?) || (t.FP? && u.FP?))
    ensures t.bitWidth == u.bitWidth
  {
    hide Stands, Sign, Decimal;
    WidthStands(s, p, t);
    WidthStands(s, p, u);
    DecimalUnique(s, p + 1, t.bitWidth, u.bitWidth);
  }

  lemma ArrayParts(s: string, p: nat, t: Type, u: Type)
    requires Signed(s, p, t) && Signed(s, p, u) && t.Array? && u.Array?
    ensures Sizes(t) == Sizes(u)
    ensures Signed(s, p + 1 + |SizeText(Sizes(t))|, Innermost(t)) && Signed(s, p + 1 + |SizeText(Sizes(t))|, Innermost(u))
  {
    hide Stands, Sign, SizeText, Sizes, Innermost;
    ArrayStands(s, p, t);
    ArrayStands(s, p, u);
    StandsAt(s, p + 1 + |SizeText(Sizes(t))|, Sign(Innermost(t)), 0);
    StandsAt(s, p + 1 + |SizeText(Sizes(u))|, Sign(Innermost(u)), 0);
    SizesUnique(s, p + 1, Sizes(t), Sizes(u));
  }

  lemma InnermostSmaller(t: Type)
    requires t.Array?
    ensures Innermost(t) < t
  {
  }

  lemma ParamTextsUnique(s: string, p: nat, a: seq<Type>, b: seq<Type>, t: Type)
    requires Stands(s, p, ParamText(a)) && Stands(s, p, ParamText(b)) && t.Fn? && a == t.params
    requires (forall k :: 0 <= k < |a| ==> WellFormed(a[k])) && (forall k :: 0 <= k < |b| ==> WellFormed(b[k]))
    ensures a == b
    decreases t, 0
  {
    StandsAt(s, p, ParamText(a), 0);
    StandsAt(s, p, ParamText(b), 0);
    ParamTextIs(a);
    ParamTextIs(b);
    if a != [] && b != [] {
      StandsParts(s, p, "_", SignAll(a) + "T");
      StandsParts(s, p, "_", SignAll(b) + "T");
      ParamsUnique(s, p + 1, a, b, 0, t);
    }
  }

  lemma {:induction false} ParamsUnique(s: string, p: nat, a: seq<Type>, b: seq<Type>, k: nat, t: Type)
    requires t.Fn? && k < |t.params| && a == t.params[k..] && b != []
    requires Stands(s, p, SignAll(a) + "T") && Stands(s, p, SignAll(b) + "T")
    requires (forall k :: 0 <= k < |a| ==> WellFormed(a[k])) && (forall k :: 0 <= k < |b| ==> WellFormed(b[k]))
    ensures a == b
    decreases t, 0, |a|
  {
    hide Stands, Sign, SignAll;
    ParamStands(s, p, a);
    ParamStands(s, p, b);
    assert a[0] == t.params[k];
    Unique(s, p, a[0], b[0]);
    if a[1..] != [] && b[1..] != [] {
      ParamsUnique(s, p + |Sign(a[0])|, a[1..], b[1..], k + 1, t);
    }
    assert a == [a[0]] + a[1..] && b == [b[0]] + b[1..];
  }

  /** Types with the same signature are equal. */
  lemma Injective(t: Type, u: Type)
    requires WellFormed(t) && WellFormed(u) && Sign(t) == Sign(u)
    ensures t == u
  {
    assert Sign(t)[0..|Sign(t)|] == Sign(t);
    Unique(Sign(t), 0, t, u);
  }
}
