/**
 * Model of core/policy.py: the traffic-class record built from keyword
 * arguments, and its printed form.
 */
module Policies {
  import opened Wrappers
  import opened PyText

  /** The `tc` handle every class id is prefixed with (config.py). */
  const HANDLE: string := "1:"

  /** A keyword value: the record holds strings such as `"10mbit"` and integers such as the priority. */
  datatype Value = Str(s: string) | Int(i: int)

  datatype Policy = Policy(classid: string, rate: Value, ceil: Value, burst: Value, prio: Value, mtu: Value)

  function DigitChar(d: int): char
    requires 0 <= d < 10
  {
    ('0' as int + d) as char
  }

  /** Decimal digits of a natural number, most significant first, without leading zeros. */
  function NatToString(n: nat): (r: string)
    ensures |r| > 0 && forall k :: 0 <= k < |r| ==> '0' <= r[k] <= '9'
  {
    if n < 10 then [DigitChar(n)] else NatToString(n / 10) + [DigitChar(n % 10)]
  }

  /** `str(i)` for an integer. */
  function IntToString(i: int): string {
    if i < 0 then "-" + NatToString(-i) else NatToString(i)
  }

  /** `str(v)`, as an f-string renders it. */
  function PyStr(v: Value): string {
    match v
    case Str(s) => s
    case Int(i) => IntToString(i)
  }

  /** `kwargs.get(key, default)` */
  function Get(kwargs: map<string, Value>, key: string, default: Value): Value {
    if key in kwargs then kwargs[key] else default
  }

  /**
   * `Policy(classid, **kwargs)`. The maximum packet size is read from the
   * `prio` keyword, as the code is written; no relation between the rate
   * and the ceiling is checked.
   */
  function NewPolicy(classid: Value, kwargs: map<string, Value>): Policy {
    Policy(
      HANDLE + PyStr(classid),
      Get(kwargs, "rate", Str("10mbit")),
      Get(kwargs, "ceil", Str("20mbit")),
      Get(kwargs, "burst", Str("15k")),
      Get(kwargs, "prio", Int(0)),
      Get(kwargs, "prio", Int(1500)))
  }

  /** Without keywords: 10mbit guaranteed, 20mbit ceiling, 15k burst, priority 0 and a 1500-byte MTU. */
  lemma Defaults(classid: Value)
    ensures NewPolicy(classid, map[]) ==
      Policy(HANDLE + PyStr(classid), Str("10mbit"), Str("20mbit"), Str("15k"), Int(0), Int(1500))
  {
  }

  /** The class id is the handle followed by the given id, so it always starts with `1:`. */
  lemma ClassIdHasHandle(classid: Value, kwargs: map<string, Value>)
    ensures var c := NewPolicy(classid, kwargs).classid;
      |c| >= 2 && c[..2] == "1:" && c[2..] == PyStr(classid)
  {
  }

  /** A keyword that is given wins over the default, whatever its value (a ceiling below the rate included). */
  lemma KeywordsOverride(classid: Value, kwargs: map<string, Value>)
    ensures var p := NewPolicy(classid, kwargs);
      && ("rate" in kwargs ==> p.rate == kwargs["rate"])
      && ("ceil" in kwargs ==> p.ceil == kwargs["ceil"])
      && ("burst" in kwargs ==> p.burst == kwargs["burst"])
      && ("prio" in kwargs ==> p.prio == kwargs["prio"])
  {
  }

  /** The MTU is the priority when one is given and 1500 otherwise; an `mtu` keyword has no effect. */
  lemma MtuFollowsPrio(classid: Value, kwargs: map<string, Value>, mtu: Value)
    ensures var p := NewPolicy(classid, kwargs);
      p.mtu == if "prio" in kwargs then p.prio else Int(1500)
    ensures NewPolicy(classid, kwargs["mtu" := mtu]) == NewPolicy(classid, kwargs - {"mtu"})
  {
  }

  /** Only four keywords are read: keyword maps that agree on them give the same record. */
  lemma OnlyFourKeywordsRead(classid: Value, k1: map<string, Value>, k2: map<string, Value>)
    requires forall key :: key in ["rate", "ceil", "burst", "prio"] ==>
      (key in k1 <==> key in k2) && (key in k1 ==> k1[key] == k2[key])
    ensures NewPolicy(classid, k1) == NewPolicy(classid, k2)
  {
    assert "rate" in ["rate", "ceil", "burst", "prio"];
    assert "ceil" in ["rate", "ceil", "burst", "prio"];
    assert "burst" in ["rate", "ceil", "burst", "prio"];
    assert "prio" in ["rate", "ceil", "burst", "prio"];
  }

  /** An MTU keyword is lost: asking for 9000 still gives 1500, and a priority of 2 gives an MTU of 2 bytes. */
  lemma MtuKeywordIgnored()
    ensures NewPolicy(Int(1), map["mtu" := Int(9000)]).mtu == Int(1500)
    ensures NewPolicy(Int(1), map["prio" := Int(2)]).mtu == Int(2)
  {
  }

  /** `Policy(classid, **kwargs)` with the `mtu` attribute read from the `mtu` keyword, as its comment intends. */
  function IntendedPolicy(classid: Value, kwargs: map<string, Value>): (p: Policy)
    ensures p.mtu == Get(kwargs, "mtu", Int(1500))
    ensures p.(mtu := Int(1500)) == NewPolicy(classid, kwargs).(mtu := Int(1500))
  {
    NewPolicy(classid, kwargs).(mtu := Get(kwargs, "mtu", Int(1500)))
  }

  /** In the intended record the MTU is the one asked for, 1500 without one, and the priority has no say in it. */
  lemma IntendedMtu(classid: Value, kwargs: map<string, Value>, mtu: Value, prio: Value)
    ensures IntendedPolicy(classid, kwargs["mtu" := mtu]).mtu == mtu
    ensures IntendedPolicy(classid, kwargs - {"mtu"}).mtu == Int(1500)
    ensures IntendedPolicy(classid, kwargs["prio" := prio]).mtu == IntendedPolicy(classid, kwargs).mtu
  {
  }

  // ---------------------------------------------------------------------
  // __str__
  // ---------------------------------------------------------------------

  /** The quote `repr` chooses: double quotes only when the text has a single quote and no double quote. */
  function QuoteFor(s: string): char {
    if '\'' in s && '"' !in s then '"' else '\''
  }

  /** Characters `repr` writes as `\xhh`: the other control characters, and the Latin-1 ones that are not printable. */
  predicate HexEscaped(c: char) {
    (c < ' ' && c != '\t' && c != '\n' && c != '\r') || ('\U{7F}' <= c <= '\U{A0}') || c == '\U{AD}'
  }

  function LowerHex(d: int): char
    requires 0 <= d < 16
  {
    if d < 10 then ('0' as int + d) as char else ('a' as int + d - 10) as char
  }

  /** How `repr` writes one character inside quotes `q`. */
  function EscapeChar(c: char, q: char): string {
    if c == q || c == '\\' then ['\\', c]
    else if c == '\t' then "\\t"
    else if c == '\n' then "\\n"
    else if c == '\r' then "\\r"
    else if HexEscaped(c) then ['\\', 'x', LowerHex(c as int / 16), LowerHex(c as int % 16)]
    else [c]
  }

  function Escape(s: string, q: char): string {
    if |s| == 0 then "" else EscapeChar(s[0], q) + Escape(s[1..], q)
  }

  /** `repr(v)` */
  function Repr(v: Value): string {
    match v
    case Str(s) => [QuoteFor(s)] + Escape(s, QuoteFor(s)) + [QuoteFor(s)]
    case Int(i) => IntToString(i)
  }

  const FIELD_NAMES: seq<string> := ["classid", "rate", "ceil", "burst", "prio", "mtu"]

  /** The attribute values, in the order `__init__` sets them. */
  function Values(p: Policy): seq<Value> {
    [Str(p.classid), p.rate, p.ceil, p.burst, p.prio, p.mtu]
  }

  /** The `key=repr(value)` items; the element-wise ensures only lets callers unfold the comprehension, and PolicyStringRoundTrip states what printing keeps. */
  function Pairs(names: seq<string>, vs: seq<Value>): (r: seq<string>)
    requires |names| == |vs|
    ensures |r| == |vs| && forall i :: 0 <= i < |vs| ==> r[i] == names[i] + "=" + Repr(vs[i])
  {
    seq(|vs|, i requires 0 <= i < |vs| => names[i] + "=" + Repr(vs[i]))
  }

  /** `str(policy)`: `Policy(`, the items joined by `, `, `)`. */
  function PolicyString(p: Policy): string {
    "Policy(" + Join(Pairs(FIELD_NAMES, Values(p)), ", ") + ")"
  }

  // A reader for the printed form, to show that it loses nothing.

  /** `s` with `prefix` taken off its front, if it starts with it. */
  function Expect(prefix: string, s: string): Option<string> {
    if prefix <= s then Some(s[|prefix|..]) else None
  }

  predicate IsDigit(c: char) {
    '0' <= c <= '9'
  }

  function LowerHexValue(c: char): int {
    if '0' <= c <= '9' then c as int - '0' as int
    else if 'a' <= c <= 'f' then c as int - 'a' as int + 10
    else -1
  }

  /** The text of a quoted literal up to its closing quote `q`, undoing the escapes, and what follows. */
  function ParseBody(s: string, q: char): Option<(string, string)>
    decreases |s|
  {
    if |s| == 0 then None
    else if s[0] == q then Some(("", s[1..]))
    else if s[0] != '\\' then Prepend(s[0], ParseBody(s[1..], q))
    else if |s| < 2 then None
    else if s[1] == 't' then Prepend('\t', ParseBody(s[2..], q))
    else if s[1] == 'n' then Prepend('\n', ParseBody(s[2..], q))
    else if s[1] == 'r' then Prepend('\r', ParseBody(s[2..], q))
    else if s[1] == '\\' || s[1] == '\'' || s[1] == '"' then Prepend(s[1], ParseBody(s[2..], q))
    else if s[1] == 'x' && |s| >= 4 && LowerHexValue(s[2]) >= 0 && LowerHexValue(s[3]) >= 0 then
      Prepend((16 * LowerHexValue(s[2]) + LowerHexValue(s[3])) as char, ParseBody(s[4..], q))
    else None
  }

  function Prepend(c: char, r: Option<(string, string)>): Option<(string, string)> {
    match r
    case None => None
    case Some((body, rest)) => Some(([c] + body, rest))
  }

  /** Number of decimal digits at the front of `s`. */
  function DigitRun(s: string): (n: nat)
    ensures n <= |s| && forall k :: 0 <= k < n ==> IsDigit(s[k])
    ensures n < |s| ==> !IsDigit(s[n])
  {
    if |s| > 0 && IsDigit(s[0]) then 1 + DigitRun(s[1..]) else 0
  }

  /** The number a run of decimal digits denotes. */
  function DigitsValue(ds: string): nat
    requires forall k :: 0 <= k < |ds| ==> IsDigit(ds[k])
  {
    if |ds| == 0 then 0
    else
      assert IsDigit(ds[|ds| - 1]);
      10 * DigitsValue(ds[..|ds| - 1]) + (ds[|ds| - 1] as int - '0' as int)
  }

  /** A run of at least one digit, read as a number, and what follows. */
  function ParseNat(t: string): Option<(nat, string)> {
    var n := DigitRun(t);
    if n == 0 then None
    else
      assert forall k :: 0 <= k < n ==> t[..n][k] == t[k];
      Some((DigitsValue(t[..n]), t[n..]))
  }

  /** An integer literal: an optional minus sign and at least one digit, and what follows. */
  function ParseInt(s: string): Option<(int, string)> {
    if |s| > 0 && s[0] == '-' then
      match ParseNat(s[1..])
      case None => None
      case Some((v, rest)) => Some((-(v as int), rest))
    else
      match ParseNat(s)
      case None => None
      case Some((v, rest)) => Some((v as int, rest))
  }

  /** A value printed by `repr`: a quoted string or an integer, and what follows. */
  function ParseValue(s: string): Option<(Value, string)> {
    if |s| > 0 && (s[0] == '\'' || s[0] == '"') then
      match ParseBody(s[1..], s[0])
      case None => None
      case Some((body, rest)) => Some((Str(body), rest))
    else
      match ParseInt(s)
      case None => None
      case Some((i, rest)) => Some((Int(i), rest))
  }

  /** The labels in front of the values: the first after `a`, the others after `, `. */
  function Labels(a: string, names: seq<string>): (r: seq<string>)
    decreases |names|
    ensures |r| == |names|
  {
    if |names| == 0 then [] else [a + names[0] + "="] + Labels(", ", names[1..])
  }

  /** Reads a value after each label in turn. */
  function ParseFields(s: string, labels: seq<string>): Option<(seq<Value>, string)>
    decreases |labels|
  {
    if |labels| == 0 then Some(([], s))
    else
      match Expect(labels[0], s)
      case None => None
      case Some(t) =>
        match ParseValue(t)
        case None => None
        case Some((v, t')) =>
          match ParseFields(t', labels[1..])
          case None => None
          case Some((vs, rest)) => Some(([v] + vs, rest))
  }

  /** Reads a printed policy back. */
  function ParsePolicy(s: string): Option<Policy> {
    match ParseFields(s, Labels("Policy(", FIELD_NAMES))
    case Some((vs, rest)) =>
      if |vs| == 6 && vs[0].Str? && rest == ")" then Some(Policy(vs[0].s, vs[1], vs[2], vs[3], vs[4], vs[5]))
      else None
    case None => None
  }

  // ---------------------------------------------------------------------
  // Round trip
  // ---------------------------------------------------------------------

  lemma ExpectPrefix(prefix: string, t: string)
    ensures Expect(prefix, prefix + t) == Some(t)
  {
    assert (prefix + t)[..|prefix|] == prefix;
    assert (prefix + t)[|prefix|..] == t;
  }

  lemma LowerHexValueOf(d: int)
    requires 0 <= d < 16
    ensures LowerHexValue(LowerHex(d)) == d
  {
  }

  /** One escaped character reads back as that character. */
  lemma ParseEscapeChar(c: char, q: char, t: string)
    requires q == '\'' || q == '"'
    ensures ParseBody(EscapeChar(c, q) + t, q) == Prepend(c, ParseBody(t, q))
  {
    var e := EscapeChar(c, q);
    var s := e + t;
    if c == q || c == '\\' {
      assert s[0] == '\\' && s[1] == c && s[2..] == t;
    } else if c == '\t' || c == '\n' || c == '\r' {
      assert s[0] == '\\' && s[2..] == t;
    } else if HexEscaped(c) {
      LowerHexValueOf(c as int / 16);
      LowerHexValueOf(c as int % 16);
      assert s[0] == '\\' && s[1] == 'x' && s[4..] == t;
      assert s[2] == LowerHex(c as int / 16) && s[3] == LowerHex(c as int % 16);
      assert (16 * (c as int / 16) + c as int % 16) as char == c;
    } else {
      assert s[0] == c && s[1..] == t;
    }
  }

  /** The escaped text followed by its closing quote reads back as the text. */
  lemma {:induction false} ParseEscaped(s: string, q: char, rest: string)
    requires q == '\'' || q == '"'
    ensures ParseBody(Escape(s, q) + [q] + rest, q) == Some((s, rest))
  {
    if |s| == 0 {
      assert Escape(s, q) + [q] + rest == [q] + rest;
      assert ([q] + rest)[1..] == rest;
    } else {
      var t := Escape(s[1..], q) + [q] + rest;
      assert Escape(s, q) + [q] + rest == EscapeChar(s[0], q) + t;
      ParseEscapeChar(s[0], q, t);
      ParseEscaped(s[1..], q, rest);
      assert [s[0]] + s[1..] == s;
    }
  }

  lemma {:induction false} DigitRunOf(ds: string, rest: string)
    requires forall k :: 0 <= k < |ds| ==> IsDigit(ds[k])
    requires |rest| == 0 || !IsDigit(rest[0])
    ensures DigitRun(ds + rest) == |ds|
  {
    if |ds| > 0 {
      assert (ds + rest)[1..] == ds[1..] + rest;
      DigitRunOf(ds[1..], rest);
    } else {
      assert ds + rest == rest;
    }
  }

  lemma {:induction false} NatToStringValue(n: nat)
    ensures DigitsValue(NatToString(n)) == n
  {
    if n >= 10 {
      NatToStringValue(n / 10);
      var d := NatToString(n);
      assert d[..|d| - 1] == NatToString(n / 10);
    }
  }

  /** A run of digits followed by a non-digit reads back as the number it denotes. */
  lemma ParseNatOf(ds: string, rest: string)
    requires |ds| > 0 && forall k :: 0 <= k < |ds| ==> IsDigit(ds[k])
    requires |rest| == 0 || !IsDigit(rest[0])
    ensures ParseNat(ds + rest) == Some((DigitsValue(ds), rest))
  {
    var t := ds + rest;
    DigitRunOf(ds, rest);
    assert t[..|ds|] == ds;
    assert t[|ds|..] == rest;
  }

  /** An integer literal followed by a non-digit reads back as the integer. */
  lemma ParseIntOf(i: int, rest: string)
    requires |rest| == 0 || !IsDigit(rest[0])
    ensures ParseInt(IntToString(i) + rest) == Some((i, rest))
  {
    var m: nat := if i < 0 then -i else i;
    var ds := NatToString(m);
    NatToStringValue(m);
    ParseNatOf(ds, rest);
    if i < 0 {
      assert IntToString(i) + rest == "-" + (ds + rest);
      ParseMinus(ds + rest, m, rest);
    } else {
      assert IntToString(i) + rest == ds + rest;
      ParseNoMinus(ds + rest, m, rest);
    }
  }

  /** A minus sign in front of a number negates it. */
  lemma ParseMinus(t: string, n: nat, rest: string)
    requires ParseNat(t) == Some((n, rest))
    ensures ParseInt("-" + t) == Some((-(n as int), rest))
  {
    assert ("-" + t)[1..] == t;
  }

  /** A number with no sign in front of it reads as itself. */
  lemma ParseNoMinus(t: string, n: nat, rest: string)
    requires ParseNat(t) == Some((n, rest))
    ensures ParseInt(t) == Some((n as int, rest))
  {
    assert IsDigit(t[0]);
  }

  /** A printed value followed by a non-digit reads back as the value. */
  lemma ParseValueOf(v: Value, rest: string)
    requires |rest| == 0 || !IsDigit(rest[0])
    ensures ParseValue(Repr(v) + rest) == Some((v, rest))
  {
    match v
    case Str(s) =>
      var q := QuoteFor(s);
      var body := Escape(s, q) + [q] + rest;
      assert Repr(v) + rest == [q] + body;
      ParseEscaped(s, q, rest);
      ParseQuoted(q, body, s, rest);
    case Int(i) =>
      ParseIntOf(i, rest);
      ParseUnquoted(IntToString(i) + rest, i, rest);
  }

  /** A quote followed by a body that reads back as `s` is the string `s`. */
  lemma ParseQuoted(q: char, body: string, s: string, rest: string)
    requires q == '\'' || q == '"'
    requires ParseBody(body, q) == Some((s, rest))
    ensures ParseValue([q] + body) == Some((Str(s), rest))
  {
    assert ([q] + body)[1..] == body;
  }

  /** Text that reads as an integer reads as that integer value. */
  lemma ParseUnquoted(t: string, i: int, rest: string)
    requires ParseInt(t) == Some((i, rest))
    ensures ParseValue(t) == Some((Int(i), rest))
  {
    assert t[0] == '-' || IsDigit(t[0]);
  }

  /** The labelled values, as printed. */
  function Render(vs: seq<Value>, labels: seq<string>): string
    requires |vs| == |labels|
  {
    if |vs| == 0 then "" else labels[0] + Repr(vs[0]) + Render(vs[1..], labels[1..])
  }

  /** Proof step, not a property of the program: the first label, and the labels after it. */
  lemma LabelsStep(a: string, names: seq<string>)
    requires |names| > 0
    ensures Labels(a, names)[0] == a + names[0] + "="
    ensures Labels(a, names)[1..] == Labels(", ", names[1..])
  {
  }

  /** Joining the `key=repr(value)` items behind a leading text is rendering them with labels. */
  lemma {:induction false} JoinIsRender(a: string, names: seq<string>, vs: seq<Value>)
    requires |names| == |vs| > 0
    ensures a + Join(Pairs(names, vs), ", ") == Render(vs, Labels(a, names))
    decreases |vs|
  {
    var ps := Pairs(names, vs);
    var labels := Labels(a, names);
    LabelsStep(a, names);
    PairsStep(names, vs);
    var r := Repr(vs[0]);
    var tail := Render(vs[1..], labels[1..]);
    RenderHead(vs, labels);
    if |vs| == 1 {
      JoinHead(ps, ", ");
      assert tail == "";
      Glue(a, names[0], r, "", ps[0], labels[0], Join(ps, ", "), Render(vs, labels));
    } else {
      var j := Join(ps[1..], ", ");
      JoinHead(ps, ", ");
      JoinIsRender(", ", names[1..], vs[1..]);
      assert tail == ", " + j;
      Glue(a, names[0], r, ", " + j, ps[0], labels[0], Join(ps, ", "), Render(vs, labels));
    }
  }

  /** Proof step, not a property of the program: `sep.join(xs)`: the first item, then the separator and the rest when there is more than one. */
  lemma JoinHead(xs: seq<string>, sep: string)
    requires |xs| > 0
    ensures Join(xs, sep) == if |xs| == 1 then xs[0] else xs[0] + (sep + Join(xs[1..], sep))
  {
  }

  /** Proof step, not a property of the program: the string regrouping behind one step of JoinIsRender. */
  lemma Glue(a: string, n: string, r: string, t: string, item: string, lab: string, joined: string, rendered: string)
    requires item == n + "=" + r && lab == a + n + "="
    requires joined == item + t && rendered == lab + r + t
    ensures a + joined == rendered
  {
  }

  /** Proof step, not a property of the program: the first `key=repr(value)` item, and the items after it. */
  lemma PairsStep(names: seq<string>, vs: seq<Value>)
    requires |names| == |vs| > 0
    ensures Pairs(names, vs)[0] == names[0] + "=" + Repr(vs[0])
    ensures Pairs(names, vs)[1..] == Pairs(names[1..], vs[1..])
  {
  }

  /** Proof step, not a property of the program: the first labelled value, then the others. */
  lemma RenderHead(vs: seq<Value>, labels: seq<string>)
    requires |vs| == |labels| > 0
    ensures Render(vs, labels) == labels[0] + Repr(vs[0]) + Render(vs[1..], labels[1..])
  {
  }

  /** One labelled value in front of the others reads back as that value in front of theirs. */
  lemma ParseFieldStep(labels: seq<string>, v: Value, after: string, vs: seq<Value>, tail: string)
    requires |labels| > 0 && (|after| == 0 || !IsDigit(after[0]))
    requires ParseFields(after, labels[1..]) == Some((vs, tail))
    ensures ParseFields(labels[0] + (Repr(v) + after), labels) == Some(([v] + vs, tail))
  {
    ExpectPrefix(labels[0], Repr(v) + after);
    ParseValueOf(v, after);
  }

  /** Rendered fields followed by `)` read back as the fields. */
  lemma {:induction false} ParseRendered(vs: seq<Value>, names: seq<string>, a: string, tail: string)
    requires |vs| == |names| && |tail| > 0 && tail[0] == ')'
    ensures ParseFields(Render(vs, Labels(a, names)) + tail, Labels(a, names)) == Some((vs, tail))
    decreases |vs|
  {
    var labels := Labels(a, names);
    if |vs| > 0 {
      LabelsStep(a, names);
      LaterLabels(names[1..]);
      var after := Render(vs[1..], labels[1..]) + tail;
      RenderStep(vs, labels, tail);
      ParseRendered(vs[1..], names[1..], ", ", tail);
      AfterField(vs[1..], labels[1..], tail);
      ParseFieldStep(labels, vs[0], after, vs[1..], tail);
      assert [vs[0]] + vs[1..] == vs;
    } else {
      assert Render(vs, labels) + tail == tail;
    }
  }

  /** The first rendered field, then the others, then what follows. */
  lemma RenderStep(vs: seq<Value>, labels: seq<string>, tail: string)
    requires |vs| == |labels| > 0
    ensures Render(vs, labels) + tail == labels[0] + (Repr(vs[0]) + (Render(vs[1..], labels[1..]) + tail))
  {
    var r := Repr(vs[0]);
    var rest := Render(vs[1..], labels[1..]);
    assert Render(vs, labels) == labels[0] + r + rest;
    Assoc(labels[0], r, rest, tail);
  }

  /** Proof step, not a property of the program. */
  lemma Assoc(x: string, y: string, z: string, w: string)
    ensures (x + y + z) + w == x + (y + (z + w))
  {
  }

  /** What follows a rendered field starts with `,` or `)`, never with a digit. */
  lemma AfterField(vs: seq<Value>, labels: seq<string>, tail: string)
    requires |vs| == |labels| && |tail| > 0 && tail[0] == ')'
    requires forall i :: 0 <= i < |labels| ==> |labels[i]| > 0 && labels[i][0] == ','
    ensures var s := Render(vs, labels) + tail; |s| > 0 && !IsDigit(s[0])
  {
    if |vs| > 0 {
      assert Render(vs, labels) == labels[0] + Repr(vs[0]) + Render(vs[1..], labels[1..]);
      assert (Render(vs, labels) + tail)[0] == labels[0][0];
    } else {
      assert Render(vs, labels) + tail == tail;
    }
  }

  /** Every label after the first starts with the `,` of its separator. */
  lemma {:induction false} LaterLabels(names: seq<string>)
    ensures forall i :: 0 <= i < |names| ==> |Labels(", ", names)[i]| > 0 && Labels(", ", names)[i][0] == ','
  {
    if |names| > 0 {
      LaterLabels(names[1..]);
      LabelsStep(", ", names);
      var l := Labels(", ", names);
      forall i | 1 <= i < |names| ensures |l[i]| > 0 && l[i][0] == ',' {
        assert l[i] == l[1..][i - 1];
      }
    }
  }

  /** The printed form loses nothing: reading it back gives the policy it was printed from. */
  lemma PolicyStringRoundTrip(p: Policy)
    ensures ParsePolicy(PolicyString(p)) == Some(p)
  {
    var vs := Values(p);
    JoinIsRender("Policy(", FIELD_NAMES, vs);
    ParseRendered(vs, FIELD_NAMES, "Policy(", ")");
    assert PolicyString(p) == Render(vs, Labels("Policy(", FIELD_NAMES)) + ")";
  }

  /** So two different policies never print the same. */
  lemma PolicyStringInjective(p1: Policy, p2: Policy)
    requires PolicyString(p1) == PolicyString(p2)
    ensures p1 == p2
  {
    PolicyStringRoundTrip(p1);
    PolicyStringRoundTrip(p2);
  }

  /** A printed record opens with its leading text, its first label and its first value, and ends with `)`. */
  lemma PrintedShape(a: string, names: seq<string>, vs: seq<Value>)
    requires |names| == |vs| > 0
    ensures var s := a + Join(Pairs(names, vs), ", ") + ")";
      && a + names[0] + "=" + Repr(vs[0]) <= s
      && s[|s| - 1] == ')'
  {
    var labels := Labels(a, names);
    var body := Join(Pairs(names, vs), ", ");
    JoinIsRender(a, names, vs);
    RenderStep(vs, labels, ")");
    LabelsStep(a, names);
    var r := Repr(vs[0]);
    var more := Render(vs[1..], labels[1..]) + ")";
    assert a + body + ")" == labels[0] + (r + more);
    Prefix(labels[0], r, more);
  }

  /** Proof step, not a property of the program. */
  lemma Prefix(x: string, y: string, z: string)
    ensures x + y <= x + (y + z)
  {
    assert (x + (y + z))[..|x + y|] == x + y;
  }

  /** The printed form opens with the class id, quoted, and ends with `)`. */
  lemma PolicyStringShape(p: Policy)
    ensures var s := PolicyString(p);
      && "Policy(classid=" + Repr(Str(p.classid)) <= s
      && s[|s| - 1] == ')'
  {
    var vs := Values(p);
    assert vs[0] == Str(p.classid);
    PrintedShape("Policy(", FIELD_NAMES, vs);
    assert "Policy(" + FIELD_NAMES[0] + "=" == "Policy(classid=";
  }
}
