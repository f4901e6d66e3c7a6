/** The fragment of Go's `fmt.Sprintf` that the sequence allocator uses: a
    format made of literal characters and one `%s` verb, optionally carrying
    the `0` flag and a decimal width, applied to one string argument. Formats
    outside this fragment (other verbs or flags, `%%`, no verb, two verbs)
    yield `None`: the model does not say what Go prints for them. */
module GoFormat {
  import opened Wrappers
  import opened Decimal

  /** Length of the run of '0' characters that starts `s`. */
  function SpanZeros(s: string): (n: nat)
    ensures n <= |s|
    ensures forall i | 0 <= i < n :: s[i] == '0'
    ensures n < |s| ==> s[n] != '0'
    decreases |s|
  {
    if |s| > 0 && s[0] == '0' then 1 + SpanZeros(s[1..]) else 0
  }

  /** Length of the run of decimal digits that starts `s`. */
  function SpanDigits(s: string): (n: nat)
    ensures n <= |s|
    ensures AllDigits(s[..n])
    ensures n < |s| ==> !IsDigit(s[n])
    decreases |s|
  {
    if |s| > 0 && IsDigit(s[0]) then 1 + SpanDigits(s[1..]) else 0
  }

  /** The text after a '%': zero flags, then the width digits, then the verb
      letter 's', then literal text holding no further '%'. */
  function Verb(spec: string, arg: string): (r: Option<string>)
    ensures r.Some? ==> |r.value| >= |arg|
  {
    var z := SpanZeros(spec);
    var t := spec[z..];
    var w := SpanDigits(t);
    var rest := t[w..];
    if |rest| == 0 || rest[0] != 's' || '%' in rest[1..] then None
    else Some(PadLeft(arg, Value(t[..w]), if z > 0 then '0' else ' ') + rest[1..])
  }

  /** `fmt.Sprintf(format, arg)` for a format of the fragment described above. */
  function Sprintf(format: string, arg: string): (r: Option<string>)
    ensures '%' !in format ==> r.None?
    ensures r.Some? ==> |r.value| >= |arg|
    decreases |format|
  {
    if |format| == 0 then None
    else if format[0] != '%' then Prepend([format[0]], Sprintf(format[1..], arg))
    else Verb(format[1..], arg)
  }

  function Prepend(prefix: string, o: Option<string>): (r: Option<string>)
    ensures r.Some? <==> o.Some?
    ensures r.Some? ==> r.value == prefix + o.value
  {
    match o
    case None => None
    case Some(t) => Some(prefix + t)
  }

  /** Literal characters before the verb are copied to the output unchanged. */
  lemma {:induction false} SprintfCopiesLiteralPrefix(prefix: string, tail: string, arg: string)
    requires '%' !in prefix
    ensures Sprintf(prefix + tail, arg) == Prepend(prefix, Sprintf(tail, arg))
    decreases |prefix|
  {
    if |prefix| > 0 {
      var f := prefix + tail;
      assert f[0] == prefix[0] && f[1..] == prefix[1..] + tail;
      SprintfLiteralStep(f, arg);
      SprintfCopiesLiteralPrefix(prefix[1..], tail, arg);
      PrependTwice([prefix[0]], prefix[1..], Sprintf(tail, arg));
      assert [prefix[0]] + prefix[1..] == prefix;
    } else {
      assert prefix + tail == tail;
      PrependTwice([], [], Sprintf(tail, arg));
    }
  }

  /** One literal character: `Sprintf` emits it and goes on with the rest
      of the format. */
  lemma SprintfLiteralStep(f: string, arg: string)
    requires |f| > 0 && f[0] != '%'
    ensures Sprintf(f, arg) == Prepend([f[0]], Sprintf(f[1..], arg))
  {
  }

  lemma PrependTwice(a: string, b: string, o: Option<string>)
    ensures Prepend(a, Prepend(b, o)) == Prepend(a + b, o)
    ensures Prepend([], o) == o
  {
    if o.Some? {
      assert a + (b + o.value) == (a + b) + o.value;
      assert [] + o.value == o.value;
    }
  }

  /** The verb `%0<w>s`, with `<w>` spelled by `Itoa`, pads the argument with
      '0' to at least `w` characters. For `w` = 0 the verb reads `%00s`: both
      zeros are flags and the width is absent, which pads to width 0 as well. */
  lemma ZeroPadVerb(width: nat, arg: string)
    ensures Sprintf("%0" + Itoa(width) + "s", arg) == Some(PadLeft(arg, width, '0'))
  {
    var f := "%0" + Itoa(width) + "s";
    assert f[0] == '%';
    var digits := Itoa(width);
    if width == 0 {
      assert digits == "0";
      assert f[1..] == Repeat('0', 2) + "" + "s";
      ZeroFlaggedVerb(2, "", arg);
    } else {
      assert f[1..] == Repeat('0', 1) + digits + "s";
      ZeroFlaggedVerb(1, digits, arg);
      ValueOfItoa(width);
    }
  }

  /** A verb made of `z` zero flags, a width without leading zero and the
      letter 's' pads with '0' to the width the digits spell. */
  lemma ZeroFlaggedVerb(z: nat, digits: string, arg: string)
    requires z >= 1 && AllDigits(digits) && (|digits| > 0 ==> digits[0] != '0')
    ensures Verb(Repeat('0', z) + digits + "s", arg) == Some(PadLeft(arg, Value(digits), '0'))
  {
    var spec := Repeat('0', z) + digits + "s";
    var t := digits + "s";
    assert spec == Repeat('0', z) + t;
    SpanZerosOfZeros(z, t);
    assert spec[z..] == t;
    SpanDigitsOfDigits(digits, "s");
    assert t[..|digits|] == digits;
    var rest := t[|digits|..];
    assert rest == "s";
    var padded := PadLeft(arg, Value(digits), '0');
    assert padded + rest[1..] == padded;
  }

  lemma {:induction false} SpanZerosOfZeros(z: nat, rest: string)
    requires |rest| > 0 && rest[0] != '0'
    ensures SpanZeros(Repeat('0', z) + rest) == z
    decreases z
  {
    var s := Repeat('0', z) + rest;
    if z > 0 {
      assert s[1..] == Repeat('0', z - 1) + rest;
      SpanZerosOfZeros(z - 1, rest);
    } else {
      assert s == rest;
    }
  }

  lemma {:induction false} SpanDigitsOfDigits(d: string, rest: string)
    requires AllDigits(d)
    requires |rest| > 0 && !IsDigit(rest[0])
    ensures SpanDigits(d + rest) == |d|
    decreases |d|
  {
    if |d| > 0 {
      assert (d + rest)[1..] == d[1..] + rest;
      SpanDigitsOfDigits(d[1..], rest);
    } else {
      assert d + rest == rest;
    }
  }
}
