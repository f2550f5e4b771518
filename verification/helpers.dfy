/**
 * Model of utils/helpers.py: which `log` calls are printed, and in which
 * colour; the MAC-address formatting of `get_mac_addr`; and the `Map`
 * dictionary whose keys are also attributes.
 */
module Helpers {
  import opened Wrappers
  import opened PyText

  // ---------------------------------------------------------------------
  // log
  // ---------------------------------------------------------------------

  /** The verbosity levels `log` recognises; any other name acts as DEBUG. */
  datatype Level = Error | Warning | Info | Debug

  /** The colours `log` knows by name; under DEBUG any other first argument is a message. */
  const KNOWN_COLORS: seq<string> := ["cyan", "yellow", "red", "green", "blue", "white", "magenta"]

  /**
   * The level in force: `config.args.verbose` when the attribute exists
   * (None here means it does not, and the level is DEBUG), compared after
   * upper-casing.
   */
  function LevelOf(verbose: Option<string>): Level {
    var v := if verbose.Some? then verbose.value else "DEBUG";
    if Upper(v) == "ERROR" then Error
    else if Upper(v) == "WARNING" then Warning
    else if Upper(v) == "INFO" then Info
    else Debug
  }

  /** Whether a call with this first argument is printed at this level. */
  predicate Shows(level: Level, color: string) {
    match level
    case Error => color in ["red", "green", "blue"]
    case Warning => color in ["cyan", "yellow", "red", "green", "blue"]
    case Info => color in KNOWN_COLORS
    case Debug => true
  }

  /** What the last `cprint` of `log` prints: a text in a colour. */
  datatype Line = Line(color: string, text: string)

  /** `str(message)`: the message, or `None` when there is none. */
  function MessageText(message: Option<string>): string {
    if message.Some? then message.value else "None"
  }

  /**
   * The line `log(color, message)` prints, or None when the call is not
   * shown. Under DEBUG a first argument that is no known colour, given
   * without a message, is itself the message, printed in cyan.
   */
  function LogLine(verbose: Option<string>, color: string, message: Option<string>): (r: Option<Line>)
    ensures r.Some? <==> Shows(LevelOf(verbose), color)
    ensures r.Some? && color in KNOWN_COLORS ==> r.value == Line(color, MessageText(message))
    ensures r.Some? && message.Some? ==> r.value == Line(color, message.value)
  {
    var level := LevelOf(verbose);
    if !Shows(level, color) then None
    else if level == Debug && color !in KNOWN_COLORS && message.None? then Some(Line("cyan", color))
    else Some(Line(color, MessageText(message)))
  }

  /** The levels are nested: whatever a stricter level prints, a looser one prints too. */
  lemma LevelsNested(color: string)
    ensures Shows(Error, color) ==> Shows(Warning, color)
    ensures Shows(Warning, color) ==> Shows(Info, color)
    ensures Shows(Info, color) ==> Shows(Debug, color)
  {
  }

  /** The exact sets of colours each level prints. */
  lemma VisibleColors(color: string)
    ensures Shows(Error, color) <==> color == "red" || color == "green" || color == "blue"
    ensures Shows(Warning, color) <==> Shows(Error, color) || color == "cyan" || color == "yellow"
    ensures Shows(Info, color) <==> Shows(Warning, color) || color == "white" || color == "magenta"
    ensures Shows(Debug, color)
  {
  }

  lemma {:induction false} UpperOfLower(s: string)
    ensures Upper(Lower(s)) == Upper(s)
  {
    var l := Lower(s);
    assert forall i :: 0 <= i < |s| ==> UpperChar(l[i]) == UpperChar(s[i]);
  }

  /** The level name is read case-insensitively: `info`, `Info` and `INFO` are the same level. */
  lemma LevelCaseInsensitive(v: string)
    ensures LevelOf(Some(Lower(v))) == LevelOf(Some(v))
    ensures LevelOf(Some(Upper(v))) == LevelOf(Some(v))
  {
    UpperOfLower(v);
    UpperOfUpper(v);
  }

  lemma UpperOfUpper(s: string)
    ensures Upper(Upper(s)) == Upper(s)
  {
    var u := Upper(s);
    assert forall i :: 0 <= i < |s| ==> UpperChar(u[i]) == UpperChar(s[i]);
  }

  /** Without a `verbose` setting, or with a name that is no level, every call is printed. */
  lemma DefaultShowsAll(verbose: Option<string>, color: string, message: Option<string>)
    requires verbose.None? || (Upper(verbose.value) != "ERROR" && Upper(verbose.value) != "WARNING" && Upper(verbose.value) != "INFO")
    ensures LevelOf(verbose) == Debug
    ensures LogLine(verbose, color, message).Some?
  {
    if verbose.None? {
      assert Upper("DEBUG") == "DEBUG";
    }
  }

  /** The debug shorthand: `log("text")` at DEBUG prints `text` in cyan. */
  lemma DebugShorthand(verbose: Option<string>, text: string)
    requires LevelOf(verbose) == Debug && text !in KNOWN_COLORS
    ensures LogLine(verbose, text, None) == Some(Line("cyan", text))
  {
  }

  // ---------------------------------------------------------------------
  // get_mac_addr
  // ---------------------------------------------------------------------

  newtype byte = x: int | 0 <= x < 0x100

  /** A lower-case hexadecimal digit, as `format` writes it. */
  function HexDigit(d: int): char
    requires 0 <= d < 16
  {
    if d < 10 then ('0' as int + d) as char else ('a' as int + d - 10) as char
  }

  predicate IsLowerHex(c: char) {
    '0' <= c <= '9' || 'a' <= c <= 'f'
  }

  /** The value of a lower-case hexadecimal digit, the digit `HexDigit` writes for it. */
  function LowerHexValue(c: char): (d: int)
    requires IsLowerHex(c)
    ensures 0 <= d < 16 && HexDigit(d) == c
  {
    if c <= '9' then c as int - '0' as int else c as int - 'a' as int + 10
  }

  /** `'{:02x}'.format(b)`: exactly two lower-case hex digits, high nibble first, that denote `b`. */
  function Hex2(b: byte): (r: string)
    ensures |r| == 2 && IsLowerHex(r[0]) && IsLowerHex(r[1])
    ensures 16 * LowerHexValue(r[0]) + LowerHexValue(r[1]) == b as int
  {
    [HexDigit(b as int / 16), HexDigit(b as int % 16)]
  }

  /** The formatted bytes, in order; the element-wise ensures only lets callers unfold the comprehension. */
  function HexPairs(bs: seq<byte>): (r: seq<string>)
    ensures |r| == |bs| && forall k :: 0 <= k < |bs| ==> r[k] == Hex2(bs[k])
  {
    seq(|bs|, k requires 0 <= k < |bs| => Hex2(bs[k]))
  }

  /** `get_mac_addr`: the bytes in two-digit hex, joined by `:`, upper-cased. */
  function MacAddr(bs: seq<byte>): string {
    Upper(Join(HexPairs(bs), ":"))
  }

  /** An upper-case hexadecimal digit. */
  function UpperHex(d: int): char
    requires 0 <= d < 16
  {
    if d < 10 then ('0' as int + d) as char else ('A' as int + d - 10) as char
  }

  predicate IsUpperHex(c: char) {
    '0' <= c <= '9' || 'A' <= c <= 'F'
  }

  function HexValue(c: char): (d: int)
    requires IsUpperHex(c)
    ensures 0 <= d < 16 && UpperHex(d) == c
  {
    if c <= '9' then c as int - '0' as int else c as int - 'A' as int + 10
  }

  /** The joined lower-case text: two digits per byte, a colon between consecutive bytes. */
  lemma {:induction false} JoinedPairs(bs: seq<byte>)
    ensures var j := Join(HexPairs(bs), ":");
      && |j| == (if |bs| == 0 then 0 else 3 * |bs| - 1)
      && (forall k :: 0 <= k < |bs| ==>
            j[3 * k] == HexDigit(bs[k] as int / 16) && j[3 * k + 1] == HexDigit(bs[k] as int % 16))
      && (forall k :: 0 <= k < |bs| - 1 ==> j[3 * k + 2] == ':')
  {
    if |bs| > 1 {
      var rest := bs[1..];
      JoinedPairs(rest);
      assert HexPairs(bs)[1..] == HexPairs(rest);
      var j' := Join(HexPairs(rest), ":");
      var j := Join(HexPairs(bs), ":");
      assert j == Hex2(bs[0]) + ":" + j';
      forall k | 1 <= k < |bs|
        ensures j[3 * k] == HexDigit(bs[k] as int / 16) && j[3 * k + 1] == HexDigit(bs[k] as int % 16)
      {
        assert j[3 * k] == j'[3 * (k - 1)] && j[3 * k + 1] == j'[3 * (k - 1) + 1];
        assert rest[k - 1] == bs[k];
      }
      forall k | 1 <= k < |bs| - 1 ensures j[3 * k + 2] == ':' {
        assert j[3 * k + 2] == j'[3 * (k - 1) + 2];
      }
    }
  }

  /**
   * The MAC text has 3n-1 characters for n bytes (none for no bytes): two
   * upper-case hex digits per byte, high nibble first, and a colon between
   * consecutive bytes.
   */
  lemma MacAddrShape(bs: seq<byte>)
    ensures var m := MacAddr(bs);
      && |m| == (if |bs| == 0 then 0 else 3 * |bs| - 1)
      && (forall k :: 0 <= k < |bs| ==>
            m[3 * k] == UpperHex(bs[k] as int / 16) && m[3 * k + 1] == UpperHex(bs[k] as int % 16))
      && (forall k :: 0 <= k < |bs| - 1 ==> m[3 * k + 2] == ':')
  {
    JoinedPairs(bs);
  }

  /** Reads a MAC text back: n pairs of upper-case hex digits separated by colons. */
  function ParseMac(s: string): Option<seq<byte>> {
    if |s| == 0 then Some([])
    else if (|s| + 1) % 3 != 0 then None
    else
      var n := (|s| + 1) / 3;
      if (forall k :: 0 <= k < n ==> IsUpperHex(s[3 * k]) && IsUpperHex(s[3 * k + 1]))
         && (forall k :: 0 <= k < n - 1 ==> s[3 * k + 2] == ':')
      then Some(seq(n, k requires 0 <= k < n => (16 * HexValue(s[3 * k]) + HexValue(s[3 * k + 1])) as byte))
      else None
  }

  lemma HexValueOf(d: int)
    requires 0 <= d < 16
    ensures IsUpperHex(UpperHex(d)) && HexValue(UpperHex(d)) == d
  {
  }

  /** Proof step, not a property of the program. */
  lemma DivMod16(a: int, b: int)
    requires 0 <= a < 16 && 0 <= b < 16
    ensures (16 * a + b) / 16 == a && (16 * a + b) % 16 == b
  {
  }

  /** No two byte strings give the same MAC text: parsing the text gives the bytes back. */
  lemma MacAddrRoundTrip(bs: seq<byte>)
    ensures ParseMac(MacAddr(bs)) == Some(bs)
  {
    var m := MacAddr(bs);
    MacAddrShape(bs);
    if |bs| > 0 {
      forall k | 0 <= k < |bs|
        ensures IsUpperHex(m[3 * k]) && IsUpperHex(m[3 * k + 1])
        ensures 16 * HexValue(m[3 * k]) + HexValue(m[3 * k + 1]) == bs[k] as int
      {
        PairValue(m[3 * k], m[3 * k + 1], bs[k]);
      }
      ParseMacOf(m, bs);
    }
  }

  /** The two upper-case digits of a byte read back as the byte. */
  lemma PairValue(hi: char, lo: char, b: byte)
    requires hi == UpperHex(b as int / 16) && lo == UpperHex(b as int % 16)
    ensures IsUpperHex(hi) && IsUpperHex(lo) && 16 * HexValue(hi) + HexValue(lo) == b as int
  {
    HexValueOf(b as int / 16);
    HexValueOf(b as int % 16);
  }

  /** A text laid out as the digit pairs of `bs` with colons between them parses to `bs`. */
  lemma ParseMacOf(s: string, bs: seq<byte>)
    requires |bs| > 0 && |s| == 3 * |bs| - 1
    requires forall k :: 0 <= k < |bs| ==>
      IsUpperHex(s[3 * k]) && IsUpperHex(s[3 * k + 1])
      && 16 * HexValue(s[3 * k]) + HexValue(s[3 * k + 1]) == bs[k] as int
    requires forall k :: 0 <= k < |bs| - 1 ==> s[3 * k + 2] == ':'
    ensures ParseMac(s) == Some(bs)
  {
    var n := (|s| + 1) / 3;
    assert n == |bs|;
    var r := seq(n, k requires 0 <= k < n => (16 * HexValue(s[3 * k]) + HexValue(s[3 * k + 1])) as byte);
    assert ParseMac(s) == Some(r);
    assert r == bs;
  }

  /** What the parser checked and read, for a non-empty text it accepts. */
  lemma ParseMacFacts(s: string)
    requires |s| > 0 && ParseMac(s).Some?
    ensures (|s| + 1) % 3 == 0 && |ParseMac(s).value| == (|s| + 1) / 3
    ensures forall k :: 0 <= k < (|s| + 1) / 3 ==>
      && IsUpperHex(s[3 * k]) && IsUpperHex(s[3 * k + 1])
      && ParseMac(s).value[k] as int == 16 * HexValue(s[3 * k]) + HexValue(s[3 * k + 1])
    ensures forall k :: 0 <= k < (|s| + 1) / 3 - 1 ==> s[3 * k + 2] == ':'
  {
  }

  /** Proof step, not a property of the program: a position of a MAC text is the high digit, the low digit or the colon of one byte `k`. */
  lemma ThirdOf(i: nat, n: nat) returns (k: nat)
    requires i < 3 * n - 1
    ensures k < n && (i == 3 * k || i == 3 * k + 1 || (i == 3 * k + 2 && k < n - 1))
  {
    k := i / 3;
  }

  /** The three characters of byte `k` in a text the parser accepts are those of the byte's MAC text. */
  lemma SoundAt(s: string, bs: seq<byte>, k: nat)
    requires |s| == 3 * |bs| - 1 && k < |bs|
    requires IsUpperHex(s[3 * k]) && IsUpperHex(s[3 * k + 1])
    requires bs[k] as int == 16 * HexValue(s[3 * k]) + HexValue(s[3 * k + 1])
    requires k < |bs| - 1 ==> s[3 * k + 2] == ':'
    ensures |MacAddr(bs)| == |s|
    ensures MacAddr(bs)[3 * k] == s[3 * k] && MacAddr(bs)[3 * k + 1] == s[3 * k + 1]
    ensures k < |bs| - 1 ==> MacAddr(bs)[3 * k + 2] == s[3 * k + 2]
  {
    MacAddrShape(bs);
    DivMod16(HexValue(s[3 * k]), HexValue(s[3 * k + 1]));
  }

  /** A text laid out as the parser demands, digit pair by digit pair, is the MAC text of those bytes. */
  lemma SoundAll(s: string, bs: seq<byte>)
    requires |s| == 3 * |bs| - 1
    requires forall k :: 0 <= k < |bs| ==>
      && IsUpperHex(s[3 * k]) && IsUpperHex(s[3 * k + 1])
      && bs[k] as int == 16 * HexValue(s[3 * k]) + HexValue(s[3 * k + 1])
    requires forall k :: 0 <= k < |bs| - 1 ==> s[3 * k + 2] == ':'
    ensures MacAddr(bs) == s
  {
    var m := MacAddr(bs);
    forall i | 0 <= i < |s| ensures |m| == |s| && m[i] == s[i] {
      var k := ThirdOf(i, |bs|);
      SoundAt(s, bs, k);
    }
    SoundAt(s, bs, 0);
  }

  /** Every text the parser accepts is the MAC text of the bytes it reads. */
  lemma ParseMacSound(s: string)
    requires ParseMac(s).Some?
    ensures MacAddr(ParseMac(s).value) == s
  {
    if |s| > 0 {
      ParseMacFacts(s);
      SoundAll(s, ParseMac(s).value);
    } else {
      MacAddrShape(ParseMac(s).value);
    }
  }

  // ---------------------------------------------------------------------
  // Map
  // ---------------------------------------------------------------------

  /** The optional positional argument of `Map(...)`: a dict, or an iterable of key-value pairs. */
  datatype Positional<V> = NoArg | FromDict(d: map<string, V>) | FromPairs(pairs: seq<(string, V)>)

  /** What `dict(pairs)` holds: a later pair for the same key wins. */
  function PairsToMap<V>(pairs: seq<(string, V)>): (m: map<string, V>)
    ensures forall i :: 0 <= i < |pairs| ==> pairs[i].0 in m
    ensures forall k :: k in m ==>
      exists i :: 0 <= i < |pairs| && pairs[i] == (k, m[k]) && forall j :: i < j < |pairs| ==> pairs[j].0 != k
  {
    if |pairs| == 0 then map[]
    else
      var m := PairsToMap(pairs[..|pairs| - 1]);
      var last := pairs[|pairs| - 1];
      assert forall i :: 0 <= i < |pairs| - 1 ==> pairs[..|pairs| - 1][i] == pairs[i];
      m[last.0 := last.1]
  }

  /**
   * `Map`, a `dict` whose keys are also attributes. `items` is the dict
   * itself, `attrs` the instance `__dict__`: every write goes to both, but
   * pairs given positionally reach only the dict.
   */
  class Map<V> {
    var items: map<string, V>
    var attrs: map<string, V>

    /** Every attribute is also an item, with the same value. */
    ghost predicate Valid()
      reads this
    {
      forall k :: k in attrs ==> k in items && attrs[k] == items[k]
    }

    /** `m[k]`: the value, or None for the KeyError. */
    function Item(k: string): Option<V>
      reads this
    {
      if k in items then Some(items[k]) else None
    }

    /** `m.k`: the attribute if set, else `self.get(k)`, which is None for a missing key. */
    function Attr(k: string): Option<V>
      reads this
    {
      if k in attrs then Some(attrs[k]) else if k in items then Some(items[k]) else None
    }

    /**
     * `Map(arg, **kwargs)`: the dict takes the positional argument and the
     * keywords; a dict argument and the keywords are then written again
     * item by item, which also sets them as attributes.
     */
    constructor (arg: Positional<V>, kwargs: map<string, V>)
      ensures items == (match arg
                        case NoArg => map[]
                        case FromDict(d) => d
                        case FromPairs(ps) => PairsToMap(ps)) + kwargs
      ensures attrs == (if arg.FromDict? then arg.d else map[]) + kwargs
      ensures Valid()
    {
      var base := match arg
        case NoArg => map[]
        case FromDict(d) => d
        case FromPairs(ps) => PairsToMap(ps);
      items := base + kwargs;
      attrs := (if arg.FromDict? then arg.d else map[]) + kwargs;
    }

    /** With the invariant, an attribute read is a `get` on the dict. */
    lemma AttrIsGet(k: string)
      requires Valid()
      ensures Attr(k) == Item(k)
      ensures k !in items ==> Attr(k) == None
    {
    }

    method GetItem(k: string) returns (r: Option<V>)
      ensures r.Some? <==> k in items
      ensures r.Some? ==> r.value == items[k]
    {
      if k in items {
        r := Some(items[k]);
      } else {
        r := None;
      }
    }

    method GetAttr(k: string) returns (r: Option<V>)
      requires Valid()
      ensures r.Some? <==> k in items
      ensures r.Some? ==> r.value == items[k]
    {
      if k in attrs {
        r := Some(attrs[k]);
      } else if k in items {
        r := Some(items[k]);
      } else {
        r := None;
      }
    }

    /** `m[k] = v`: the dict and the attributes both get the value. */
    method SetItem(k: string, v: V)
      modifies this
      ensures items == old(items)[k := v] && attrs == old(attrs)[k := v]
      ensures Item(k) == Some(v) && Attr(k) == Some(v)
      ensures old(Valid()) ==> Valid()
    {
      items := items[k := v];
      attrs := attrs[k := v];
    }

    /** `m.k = v`, the same as `m[k] = v`. */
    method SetAttr(k: string, v: V)
      modifies this
      ensures items == old(items)[k := v] && attrs == old(attrs)[k := v]
      ensures Item(k) == Some(v) && Attr(k) == Some(v)
      ensures old(Valid()) ==> Valid()
    {
      SetItem(k, v);
    }

    /**
     * `del m[k]`: a KeyError (false) when the dict lacks the key; otherwise
     * the key leaves the dict, and then the attributes, where a second
     * KeyError is raised if it was never an attribute.
     */
    method DelItem(k: string) returns (ok: bool)
      modifies this
      ensures k !in old(items) ==> !ok && items == old(items) && attrs == old(attrs)
      ensures k in old(items) ==> items == old(items) - {k} && attrs == old(attrs) - {k}
      ensures ok <==> k in old(items) && k in old(attrs)
      ensures ok ==> Item(k) == None && Attr(k) == None
      ensures old(Valid()) ==> Valid()
    {
      if k !in items {
        return false;
      }
      items := items - {k};
      if k !in attrs {
        return false;
      }
      attrs := attrs - {k};
      ok := true;
    }

    /** `del m.k`, the same as `del m[k]`. */
    method DelAttr(k: string) returns (ok: bool)
      modifies this
      ensures k !in old(items) ==> !ok && items == old(items) && attrs == old(attrs)
      ensures k in old(items) ==> items == old(items) - {k} && attrs == old(attrs) - {k}
      ensures ok <==> k in old(items) && k in old(attrs)
      ensures ok ==> Item(k) == None && Attr(k) == None
      ensures old(Valid()) ==> Valid()
    {
      ok := DelItem(k);
    }
  }
}
