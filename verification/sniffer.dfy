/**
 * Model of core/sniffer.py: marking a captured packet with a TOS value, the
 * layer filter of the packet display, and the per-packet pipeline
 * (metrics, marking, classification).
 */
module Sniffing {
  import opened Wrappers
  import opened PyText
  import opened Packets
  import opened Slicing
  import opened Classification
  import opened Scanning
  import opened Metrics

  // ---------------------------------------------------------------------
  // add_slice_info
  // ---------------------------------------------------------------------

  /** Sets header field `key` of the layer at `i`. */
  function SetField(layers: seq<Layer>, i: nat, key: string, v: int): seq<Layer>
    requires i < |layers| && layers[i].Header?
  {
    layers[i := layers[i].(fields := layers[i].fields[key := v])]
  }

  /** `del layer.key`: the field goes back to unset. */
  function ClearField(layers: seq<Layer>, i: nat, key: string): seq<Layer>
    requires i < |layers| && layers[i].Header?
  {
    layers[i := layers[i].(fields := layers[i].fields - {key})]
  }

  /**
   * The chain after `add_slice_info` picked `tos`: on the first IP header the
   * TOS set and the checksum cleared; then the checksum of the first TCP
   * header cleared, or, when there is no TCP header, that of the first UDP
   * header.
   */
  function Marked(layers: seq<Layer>, tos: int): seq<Layer>
    requires HasHeader(layers, "IP")
  {
    var ip := FirstHeader(layers, "IP").value;
    var l := ClearField(SetField(layers, ip, "tos", tos), ip, "chksum");
    assert forall j :: 0 <= j < |l| ==> l[j].ClassName() == layers[j].ClassName();
    if HasHeader(l, "TCP") then ClearField(l, FirstHeader(l, "TCP").value, "chksum")
    else if HasHeader(l, "UDP") then ClearField(l, FirstHeader(l, "UDP").value, "chksum")
    else l
  }

  /** The layer `packet[TCP]` names when there is one, else the layer `packet[UDP]` names, if any. */
  function Transport(layers: seq<Layer>): (r: Option<nat>)
    ensures r.Some? ==> r.value < |layers| && layers[r.value].Header?
    ensures r.Some? ==> layers[r.value].name == (if HasHeader(layers, "TCP") then "TCP" else "UDP")
    ensures r.None? <==> !HasHeader(layers, "TCP") && !HasHeader(layers, "UDP")
  {
    if HasHeader(layers, "TCP") then FirstHeader(layers, "TCP")
    else FirstHeader(layers, "UDP")
  }

  /**
   * What marking does to the layer at position `j`, read off the original
   * chain: the first IP header gets the TOS and loses its checksum, the
   * transport header of `Transport` loses its checksum, any other layer is
   * kept as it is.
   */
  function MarkedAt(layers: seq<Layer>, tos: int, j: nat): Layer
    requires j < |layers| && HasHeader(layers, "IP")
  {
    if FirstHeader(layers, "IP") == Some(j) then
      layers[j].(fields := (layers[j].fields - {"chksum"})["tos" := tos])
    else if Transport(layers) == Some(j) then
      layers[j].(fields := layers[j].fields - {"chksum"})
    else layers[j]
  }

  /**
   * The sequence of edits `add_slice_info` makes comes to the layer-by-layer
   * description: no layer is added or dropped, and each layer is as
   * `MarkedAt` says.
   */
  lemma MarkedSpec(layers: seq<Layer>, tos: int)
    requires HasHeader(layers, "IP")
    ensures |Marked(layers, tos)| == |layers|
    ensures forall j :: 0 <= j < |layers| ==> Marked(layers, tos)[j] == MarkedAt(layers, tos, j)
  {
    var ip := FirstHeader(layers, "IP").value;
    var l := ClearField(SetField(layers, ip, "tos", tos), ip, "chksum");
    MarkedThroughTransport(layers, tos);
    var t := Transport(layers);
    assert t.Some? ==> t.value != ip by {
      if t.Some? {
        assert layers[t.value].name != "IP";
      }
    }
    assert l[ip].fields == (layers[ip].fields - {"chksum"})["tos" := tos];
  }

  /** `Marked` clears the checksum of the header `Transport` picks on the original chain. */
  lemma MarkedThroughTransport(layers: seq<Layer>, tos: int)
    requires HasHeader(layers, "IP")
    ensures var ip := FirstHeader(layers, "IP").value;
      var l := ClearField(SetField(layers, ip, "tos", tos), ip, "chksum");
      var t := Transport(layers);
      && (t.Some? ==> t.value < |l| && l[t.value].Header?)
      && Marked(layers, tos) == if t.Some? then ClearField(l, t.value, "chksum") else l
  {
    var ip := FirstHeader(layers, "IP").value;
    var l := ClearField(SetField(layers, ip, "tos", tos), ip, "chksum");
    SameClassesSameHeaders(layers, l, "TCP");
    SameClassesSameHeaders(layers, l, "UDP");
  }

  /** Marking touches no slice tag, renames no layer, and the TOS lands in the first IP header, without a checksum. */
  lemma MarkedKeepsClasses(layers: seq<Layer>, tos: int)
    requires HasHeader(layers, "IP")
    ensures |Marked(layers, tos)| == |layers|
    ensures forall j :: 0 <= j < |layers| ==>
      Marked(layers, tos)[j].ClassName() == layers[j].ClassName()
      && (layers[j].SliceLayer? ==> Marked(layers, tos)[j] == layers[j])
    ensures var ip := FirstHeader(layers, "IP").value;
      Marked(layers, tos)[ip].fields == (layers[ip].fields - {"chksum"})["tos" := tos]
  {
    MarkedSpec(layers, tos);
  }

  /** Two chains with the same class at every position have their headers at the same positions. */
  lemma SameClassesSameHeaders(a: seq<Layer>, b: seq<Layer>, name: string)
    requires |a| == |b|
    requires forall j :: 0 <= j < |a| ==> a[j].Header? == b[j].Header? && (a[j].Header? ==> a[j].name == b[j].name)
    ensures HasHeader(a, name) == HasHeader(b, name)
    ensures FirstHeader(a, name) == FirstHeader(b, name)
  {
    if HasHeader(a, name) {
      var i :| 0 <= i < |a| && a[i].Header? && a[i].name == name;
      assert b[i].Header? && b[i].name == name;
    }
    if HasHeader(b, name) {
      var i :| 0 <= i < |b| && b[i].Header? && b[i].name == name;
      assert a[i].Header? && a[i].name == name;
    }
  }

  /** Two chains with their slice tags at the same positions have the same first tag at or after any position. */
  lemma {:induction false} SameTagsSameFirstSlice(a: seq<Layer>, b: seq<Layer>, from: nat)
    requires |a| == |b|
    requires forall j :: 0 <= j < |a| ==> a[j].SliceLayer? == b[j].SliceLayer? && (a[j].SliceLayer? ==> a[j] == b[j])
    ensures FirstSliceFrom(a, from) == FirstSliceFrom(b, from)
    decreases |a| - from
  {
    if from < |a| {
      SameTagsSameFirstSlice(a, b, from + 1);
    }
  }

  /** Marking leaves the slice tags alone, so the classifier reads the same SID and removes the same tag. */
  lemma MarkedKeepsTags(layers: seq<Layer>, tos: int)
    requires HasHeader(layers, "IP")
    ensures HasSliceLayer(Marked(layers, tos)) == HasSliceLayer(layers)
    ensures HasSliceLayer(layers) ==> FirstSid(Marked(layers, tos)) == FirstSid(layers)
    ensures FirstSliceFrom(Marked(layers, tos), 1) == FirstSliceFrom(layers, 1)
  {
    MarkedKeepsClasses(layers, tos);
    SameTagsSameSid(Marked(layers, tos), layers);
  }

  /**
   * A chain whose layers have the classes of another's, and which keeps the
   * other's slice tags, agrees with it on whether there is a tag, its SID,
   * and the first tag after the front.
   */
  lemma SameTagsSameSid(a: seq<Layer>, b: seq<Layer>)
    requires |a| == |b|
    requires forall j :: 0 <= j < |a| ==> a[j].ClassName() == b[j].ClassName() && (b[j].SliceLayer? ==> a[j] == b[j])
    ensures HasSliceLayer(a) == HasSliceLayer(b)
    ensures HasSliceLayer(b) ==> FirstSid(a) == FirstSid(b)
    ensures FirstSliceFrom(a, 1) == FirstSliceFrom(b, 1)
  {
    forall j | 0 <= j < |a| ensures a[j].SliceLayer? == b[j].SliceLayer? {
      assert a[j].ClassName() == b[j].ClassName();
    }
    SameTagsSameFirstSlice(a, b, 0);
    SameTagsSameFirstSlice(a, b, 1);
    if HasSliceLayer(b) {
      var i :| 0 <= i < |b| && b[i].SliceLayer?;
      assert a[i].SliceLayer?;
    }
    if HasSliceLayer(a) {
      var i :| 0 <= i < |a| && a[i].SliceLayer?;
      assert b[i].SliceLayer?;
    }
  }

  // ---------------------------------------------------------------------
  // The layer filter of display_packet
  // ---------------------------------------------------------------------

  /**
   * The requested tokens of `display_packet`: the stripped, lowered pieces of
   * the filter split on the substring `or`, plus `ether` and `slice`; None
   * (every layer is shown) when the filter is None, empty or blank.
   */
  function Requested(filters: Option<string>): Option<set<string>> {
    if filters.Some? && filters.value != "" && Strip(filters.value) != "" then
      Some(Tokens(Split(filters.value, "or")) + {"ether", "slice"})
    else None
  }

  /** The set of tokens the pieces of a filter stand for: each piece stripped and lowered. */
  function Tokens(pieces: seq<string>): set<string> {
    set piece | piece in pieces :: Lower(Strip(piece))
  }

  /** The elements of a sequence, as a set. */
  function Elements(ts: seq<string>): set<string> {
    set t | t in ts
  }

  /** A layer is shown when nothing was requested, or when some token occurs in its lowered class name. */
  predicate Shown(requested: Option<set<string>>, className: string) {
    requested.None? || exists req :: req in requested.value && Contains(Lower(className), req)
  }

  /** The class names of the layers shown, in chain order. */
  function ShownLayers(layers: seq<Layer>, requested: Option<set<string>>): seq<string> {
    if |layers| == 0 then []
    else
      var last := layers[|layers| - 1].ClassName();
      ShownLayers(layers[..|layers| - 1], requested) + (if Shown(requested, last) then [last] else [])
  }

  /** One more layer of the chain adds its class name when it passes the filter. */
  lemma ShownLayersStep(layers: seq<Layer>, i: nat, requested: Option<set<string>>)
    requires i < |layers|
    ensures var name := layers[i].ClassName();
      ShownLayers(layers[..i + 1], requested) ==
        ShownLayers(layers[..i], requested) + (if Shown(requested, name) then [name] else [])
  {
    assert layers[..i + 1][..i] == layers[..i];
  }

  /** Without a filter every layer is shown, in order. */
  lemma {:induction false} NoFilterShowsAll(layers: seq<Layer>)
    ensures |ShownLayers(layers, None)| == |layers|
    ensures forall j :: 0 <= j < |layers| ==> ShownLayers(layers, None)[j] == layers[j].ClassName()
  {
    if |layers| > 0 {
      NoFilterShowsAll(layers[..|layers| - 1]);
    }
  }

  /** A name is among the rows exactly when some layer of that class passes the filter. */
  lemma {:induction false} ShownLayersMembers(layers: seq<Layer>, requested: Option<set<string>>, name: string)
    ensures name in ShownLayers(layers, requested) <==>
      Shown(requested, name) && exists j :: 0 <= j < |layers| && layers[j].ClassName() == name
  {
    if |layers| > 0 {
      var init := layers[..|layers| - 1];
      ShownLayersMembers(init, requested, name);
      assert forall j :: 0 <= j < |init| ==> init[j] == layers[j];
      if exists j :: 0 <= j < |layers| && layers[j].ClassName() == name {
        var j :| 0 <= j < |layers| && layers[j].ClassName() == name;
        if j < |init| {
          assert init[j].ClassName() == name;
        }
      }
    }
  }

  /** A text contains each of its prefixes. */
  lemma ContainsPrefix(s: string, sub: string)
    requires sub <= s
    ensures Contains(s, sub)
  {
  }

  lemma RequestedAlwaysHolds(filters: Option<string>)
    ensures Requested(filters).Some? ==> "ether" in Requested(filters).value && "slice" in Requested(filters).value
  {
  }

  /** The Ethernet header and the slice tag pass every filter, since `ether` and `slice` are always requested. */
  lemma EtherAndSliceAlwaysShown(filters: Option<string>)
    ensures Shown(Requested(filters), "Ether")
    ensures Shown(Requested(filters), "SliceLayer")
  {
    RequestedAlwaysHolds(filters);
    assert Lower("Ether") == "ether";
    ContainsPrefix("ether", "ether");
    assert Lower("SliceLayer") == "slicelayer";
    assert "slice" <= "slicelayer";
    ContainsPrefix("slicelayer", "slice");
  }

  /** An `or` starts at position `j` of `s`. */
  predicate OrAt(s: string, j: int) {
    0 <= j && j + 1 < |s| && s[j] == 'o' && s[j + 1] == 'r'
  }

  lemma OrPrefix(s: string, j: nat)
    requires j <= |s|
    ensures "or" <= s[j..] <==> OrAt(s, j)
  {
    if OrAt(s, j) {
      assert s[j..][..2] == "or";
    }
  }

  lemma FindNoOr(s: string)
    requires forall k :: !OrAt(s, k)
    ensures Find(s, "or") == None
  {
    var f := Find(s, "or");
    if f.Some? {
      OrPrefix(s, f.value);
    }
  }

  lemma NoOrInWord(t: string)
    requires !Contains(t, "or")
    ensures forall k :: !OrAt(t, k)
  {
    forall k | 0 <= k <= |t| ensures !OrAt(t, k) {
      OrPrefix(t, k);
    }
  }

  /** Padding a word free of `or` with blanks creates no `or`. */
  lemma NoOrPadded(p: string, t: string, q: string)
    requires AllSpace(p) && AllSpace(q)
    requires forall k :: !OrAt(t, k)
    ensures forall j :: !OrAt(p + t + q, j)
  {
    var a := p + t + q;
    forall j | 0 <= j && j + 1 < |a| ensures !OrAt(a, j) {
      if j < |p| {
        assert a[j] == p[j];
      } else if j + 1 < |p| + |t| {
        assert a[j] == t[j - |p|] && a[j + 1] == t[j - |p| + 1];
        assert !OrAt(t, j - |p|);
      } else if j < |p| + |t| {
        assert a[j + 1] == q[0];
      } else {
        assert a[j] == q[j - |p| - |t|];
      }
    }
  }

  /** The word conditions the scanner's tokens meet, plus the absence of `or`. */
  predicate PlainToken(t: string) {
    t != "" && !HasSpace(t) && IsLower(t) && !Contains(t, "or")
  }

  /** The last token, after an optional blank, is one piece that strips and lowers back to the token. */
  lemma SplitLastToken(p: string, t: string)
    requires p == "" || p == " "
    requires PlainToken(t)
    ensures Split(p + t, "or") == [p + t]
    ensures Lower(Strip(p + t)) == t
  {
    NoOrInWord(t);
    assert p + t == p + t + "";
    NoOrPadded(p, t, "");
    FindNoOr(p + t);
    StripPadded(p, t, "");
    LowerOfLower(t);
  }

  /** A text with no `or` inside it is the first piece of itself, `or` and anything after. */
  lemma SplitAtFirstOr(a: string, b: string)
    requires forall k :: !OrAt(a, k)
    ensures Split(a + "or" + b, "or") == [a] + Split(b, "or")
  {
    var s := a + "or" + b;
    forall j | 0 <= j < |a| ensures !("or" <= s[j..]) {
      OrPrefix(s, j);
      if j + 1 < |a| {
        assert s[j] == a[j] && s[j + 1] == a[j + 1];
        assert !OrAt(a, j);
      } else {
        assert s[j + 1] == 'o';
      }
    }
    SplitAfter(a, "or", b);
  }

  /** Any other token is cut off at the `or` that follows its blank. */
  lemma SplitFirstToken(p: string, t: string, b: string)
    requires p == "" || p == " "
    requires PlainToken(t)
    ensures Split(p + t + " " + "or" + b, "or") == [p + t + " "] + Split(b, "or")
  {
    NoOrInWord(t);
    NoOrPadded(p, t, " ");
    SplitAtFirstOr(p + t + " ", b);
  }

  /** The pieces the `" or "`-joined tokens split into: each token with the blanks around it. */
  function Pieces(ts: seq<string>, p: string): (r: seq<string>)
    requires |ts| > 0
    ensures |r| == |ts|
  {
    if |ts| == 1 then [p + ts[0]] else [p + ts[0] + " "] + Pieces(ts[1..], " ")
  }

  /** Splitting the joined tokens on `or` cuts exactly at the separators when no token contains `or`. */
  lemma {:induction false} SplitJoinedPieces(ts: seq<string>, p: string)
    requires |ts| > 0 && (p == "" || p == " ")
    requires forall i :: 0 <= i < |ts| ==> PlainToken(ts[i])
    ensures Split(p + Join(ts, " or "), "or") == Pieces(ts, p)
  {
    assert PlainToken(ts[0]);
    if |ts| == 1 {
      SplitLastToken(p, ts[0]);
    } else {
      assert " or " == " " + "or" + " ";
      JoinStep(p, ts, " ", "or", " ");
      SplitFirstToken(p, ts[0], " " + Join(ts[1..], " or "));
      assert forall i :: 0 <= i < |ts[1..]| ==> PlainToken(ts[1..][i]);
      SplitJoinedPieces(ts[1..], " ");
    }
  }

  /** The piece for token `i` strips and lowers back to that token. */
  lemma {:induction false} PieceToken(ts: seq<string>, p: string, i: nat)
    requires |ts| > 0 && (p == "" || p == " ") && i < |ts|
    requires forall k :: 0 <= k < |ts| ==> PlainToken(ts[k])
    ensures Lower(Strip(Pieces(ts, p)[i])) == ts[i]
  {
    if i == 0 {
      assert PlainToken(ts[0]);
      LowerOfLower(ts[0]);
      if |ts| == 1 {
        StripPadded(p, ts[0], "");
        assert p + ts[0] + "" == p + ts[0];
      } else {
        StripPadded(p, ts[0], " ");
      }
    } else {
      var rest := ts[1..];
      assert Pieces(ts, p)[i] == Pieces(rest, " ")[i - 1];
      assert ts[i] == rest[i - 1];
      assert forall k :: 0 <= k < |rest| ==> rest[k] == ts[k + 1];
      PieceToken(rest, " ", i - 1);
    }
  }

  /** Each piece strips and lowers back to its token. */
  lemma PiecesTokens(ts: seq<string>, p: string)
    requires |ts| > 0 && (p == "" || p == " ")
    requires forall i :: 0 <= i < |ts| ==> PlainToken(ts[i])
    ensures forall i :: 0 <= i < |ts| ==> Lower(Strip(Pieces(ts, p)[i])) == ts[i]
  {
    forall i | 0 <= i < |ts| ensures Lower(Strip(Pieces(ts, p)[i])) == ts[i] {
      PieceToken(ts, p, i);
    }
  }

  /**
   * Splitting the `" or "`-joined tokens on `or` gives one piece per token,
   * each stripping and lowering back to its token.
   */
  lemma SplitJoined(ts: seq<string>)
    requires |ts| > 0
    requires forall i :: 0 <= i < |ts| ==> PlainToken(ts[i])
    ensures var pieces := Split(Join(ts, " or "), "or");
      |pieces| == |ts| && forall i :: 0 <= i < |ts| ==> Lower(Strip(pieces[i])) == ts[i]
  {
    SplitJoinedPieces(ts, "");
    PiecesTokens(ts, "");
    assert "" + Join(ts, " or ") == Join(ts, " or ");
  }

  /** Proof step, not a property of the program: one step of `join`, with the separator spelt out around the `or` the split cuts at. */
  lemma JoinStep(p: string, ts: seq<string>, a: string, b: string, c: string)
    requires |ts| > 1
    ensures p + Join(ts, a + b + c) == p + ts[0] + a + b + (c + Join(ts[1..], a + b + c))
  {
    var j := Join(ts[1..], a + b + c);
    assert Join(ts, a + b + c) == ts[0] + (a + b + c) + j;
  }

  /** Pieces that map one to one onto tokens give the set of the tokens. */
  lemma PiecesToTokens(pieces: seq<string>, ts: seq<string>)
    requires |pieces| == |ts|
    requires forall i :: 0 <= i < |ts| ==> Lower(Strip(pieces[i])) == ts[i]
    ensures Tokens(pieces) == Elements(ts)
  {
    var got := Tokens(pieces);
    forall x | x in got ensures x in ts {
      var piece :| piece in pieces && Lower(Strip(piece)) == x;
      var i :| 0 <= i < |pieces| && pieces[i] == piece;
      assert ts[i] == x;
    }
    forall x | x in ts ensures x in got {
      var i :| 0 <= i < |ts| && ts[i] == x;
      assert pieces[i] in pieces;
    }
  }

  /**
   * Round trip from the scanner to the display filter: as long as no token
   * contains `or`, the sniffer recovers exactly the joined tokens (plus
   * `ether` and `slice`); with no token at all it shows every layer.
   */
  lemma FilterRoundTrip(ts: seq<string>)
    requires forall i :: 0 <= i < |ts| ==> PlainToken(ts[i])
    ensures |ts| == 0 ==> Requested(Some(Join(ts, " or "))) == None
    ensures |ts| > 0 ==> Requested(Some(Join(ts, " or "))) == Some(Elements(ts) + {"ether", "slice"})
  {
    if |ts| > 0 {
      var s := Join(ts, " or ");
      SplitJoined(ts);
      assert PlainToken(ts[0]);
      JoinStartsWithFirst(ts, " or ");
      assert s[0] == ts[0][0];
      assert !IsSpace(s[0]);
      StripNonEmpty(s, 0);
      RequestedFromPieces(s, Split(s, "or"), ts);
    }
  }

  /** A filter that is not blank requests the tokens its pieces strip and lower to, and `ether` and `slice`. */
  lemma RequestedFromPieces(f: string, pieces: seq<string>, ts: seq<string>)
    requires Strip(f) != "" && Split(f, "or") == pieces
    requires |pieces| == |ts| && forall i :: 0 <= i < |ts| ==> Lower(Strip(pieces[i])) == ts[i]
    ensures Requested(Some(f)) == Some(Elements(ts) + {"ether", "slice"})
  {
    PiecesToTokens(pieces, ts);
  }

  /** The scanner's filter string, read back by the display filter, yields the scanner's tokens when none contains `or`. */
  lemma ScannerToSniffer(selected: seq<string>, bpf: string)
    requires forall t :: t in FilterTokens(selected, bpf) ==> !Contains(t, "or")
    ensures var ts := FilterTokens(selected, bpf);
      Requested(Some(FilterString(selected, bpf))) ==
        if |ts| == 0 then None else Some(Elements(ts) + {"ether", "slice"})
  {
    var ts := FilterTokens(selected, bpf);
    FilterTokensSpec(selected, bpf);
    forall i | 0 <= i < |ts| ensures PlainToken(ts[i]) {
      assert ts[i] in ts;
    }
    FilterRoundTrip(ts);
  }

  /**
   * The split is on the substring, not on the word: after a first token,
   * a word with `or` inside it (say `port`) is cut into the text before and
   * the text after, and neither half has to name a layer.
   */
  lemma OrInsideAWord(t: string, x: string, y: string)
    requires PlainToken(t) && PlainToken(x) && PlainToken(y)
    ensures Requested(Some(t + " or " + x + "or" + y)) == Some({t, x, y, "ether", "slice"})
  {
    var f := t + " or " + x + "or" + y;
    var pieces := [t + " ", " " + x, y];
    var ts := [t, x, y];
    OrWordPieces(t, x, y);
    OrWordTokens(t, x, y);
    OrWordNotBlank(t, x, y);
    ThreePieces(t + " ", " " + x, y, t, x, y);
    RequestedFromPieces(f, pieces, ts);
    ThreeTokens(t, x, y);
  }

  /** Proof step, not a property of the program. */
  lemma ThreePieces(a: string, b: string, c: string, t: string, x: string, y: string)
    requires Lower(Strip(a)) == t && Lower(Strip(b)) == x && Lower(Strip(c)) == y
    ensures forall i :: 0 <= i < 3 ==> Lower(Strip([a, b, c][i])) == [t, x, y][i]
  {
  }

  /** The filter starts with the first token, so it is not blank. */
  lemma OrWordNotBlank(t: string, x: string, y: string)
    requires PlainToken(t)
    ensures Strip(t + " or " + x + "or" + y) != ""
  {
    var f := t + " or " + x + "or" + y;
    assert !IsSpace(t[0]);
    assert f[0] == t[0];
    StripNonEmpty(f, 0);
  }

  /** Proof step, not a property of the program. */
  lemma ThreeTokens(t: string, x: string, y: string)
    ensures Elements([t, x, y]) + {"ether", "slice"} == {t, x, y, "ether", "slice"}
  {
    var ts := [t, x, y];
    assert ts[0] == t && ts[1] == x && ts[2] == y;
  }

  lemma OrWordPieces(t: string, x: string, y: string)
    requires PlainToken(t) && PlainToken(x) && PlainToken(y)
    ensures Split(t + " or " + x + "or" + y, "or") == [t + " ", " " + x, y]
  {
    var r1 := (" " + x) + "or" + y;
    OrWordRegroup(t, x, y);
    OrWordTail(x, y);
    OrWordHead(t, r1, [" " + x, y]);
    assert [t + " "] + [" " + x, y] == [t + " ", " " + x, y];
  }

  /** The pieces after the first `or`: the blank-led word, then the last word. */
  lemma OrWordTail(x: string, y: string)
    requires PlainToken(x) && PlainToken(y)
    ensures Split((" " + x) + "or" + y, "or") == [" " + x, y]
  {
    NoOrInWord(x);
    NoOrInWord(y);
    FindNoOr(y);
    assert Split(y, "or") == [y];
    NoOrPadded(" ", x, "");
    assert " " + x + "" == " " + x;
    SplitAtFirstOr(" " + x, y);
  }

  /** The first token and its blank are cut off at the first `or`. */
  lemma OrWordHead(t: string, r: string, rest: seq<string>)
    requires PlainToken(t) && Split(r, "or") == rest
    ensures Split((t + " ") + "or" + r, "or") == [t + " "] + rest
  {
    NoOrInWord(t);
    NoOrPadded("", t, " ");
    assert "" + t + " " == t + " ";
    SplitAtFirstOr(t + " ", r);
  }

  /** Proof step, not a property of the program. */
  lemma OrWordRegroup(t: string, x: string, y: string)
    ensures t + " or " + x + "or" + y == (t + " ") + "or" + ((" " + x) + "or" + y)
  {
    assert " or " == " " + "or" + " ";
  }

  lemma OrWordTokens(t: string, x: string, y: string)
    requires PlainToken(t) && PlainToken(x) && PlainToken(y)
    ensures Lower(Strip(t + " ")) == t && Lower(Strip(" " + x)) == x && Lower(Strip(y)) == y
  {
    StripPadded("", t, " ");
    assert "" + t + " " == t + " ";
    StripPadded(" ", x, "");
    assert " " + x + "" == " " + x;
    StripPadded("", y, "");
    assert "" + y + "" == y;
    LowerOfLower(t);
    LowerOfLower(x);
    LowerOfLower(y);
  }

  // ---------------------------------------------------------------------
  // The sniffer
  // ---------------------------------------------------------------------

  class Sniffer {
    var interface: Option<string>
    var filters: Option<string>
    const classifier: Option<PacketClassifier>
    const metrics: PacketMetrics
    const displayMetrics: bool
    const displayPackets: bool

    /** `__init__`: takes the interface and the filter from the scanner and starts fresh metrics at `now`. */
    constructor (scanner: Scanner, classifier: Option<PacketClassifier>, displayMetrics: bool, displayPackets: bool, now: real)
      ensures interface == scanner.interface && filters == scanner.filters
      ensures this.classifier == classifier
      ensures this.displayMetrics == displayMetrics && this.displayPackets == displayPackets
      ensures fresh(metrics) && metrics.packetCount == 0 && metrics.totalData == 0 && metrics.startTime == now
    {
      interface := scanner.interface;
      filters := scanner.filters;
      this.classifier := classifier;
      this.displayMetrics := displayMetrics;
      this.displayPackets := displayPackets;
      metrics := new PacketMetrics(now);
    }

    /** The objects a classification may change: the dispatcher's counters. */
    ghost function Dispatchers(): set<object> {
      if classifier.Some? then {classifier.value.slicer} else {}
    }

    /**
     * `add_slice_info`: no IP header, no packet (None); otherwise a TOS from
     * 1 to 4 (a random choice in the source) goes into the first IP header
     * and the checksums are cleared, and the same packet comes back.
     */
    static method AddSliceInfo(packet: Packet) returns (r: Option<Packet>)
      modifies packet
      ensures !HasHeader(old(packet.layers), "IP") ==> r == None && packet.layers == old(packet.layers)
      ensures HasHeader(old(packet.layers), "IP") ==>
        r == Some(packet) && exists tos :: 1 <= tos <= 4 && packet.layers == Marked(old(packet.layers), tos)
    {
      if !HasHeader(packet.layers, "IP") {
        return None;
      }
      ghost var before := packet.layers;
      var tos :| 1 <= tos <= 4;
      var ip := FirstHeader(packet.layers, "IP").value;
      packet.layers := SetField(packet.layers, ip, "tos", tos);
      packet.layers := ClearField(packet.layers, ip, "chksum");
      if HasHeader(packet.layers, "TCP") {
        packet.layers := ClearField(packet.layers, FirstHeader(packet.layers, "TCP").value, "chksum");
      } else if HasHeader(packet.layers, "UDP") {
        packet.layers := ClearField(packet.layers, FirstHeader(packet.layers, "UDP").value, "chksum");
      }
      assert packet.layers == Marked(before, tos);
      r := Some(packet);
    }

    /**
     * The rows of the table `display_packet` prints: the class name of each
     * layer that passes the filter, walking the payload chain from the
     * outermost layer; no rows for None.
     */
    method DisplayedLayers(packet: Option<Packet>) returns (rows: seq<string>)
      ensures packet.None? ==> rows == []
      ensures packet.Some? ==> rows == ShownLayers(packet.value.layers, Requested(filters))
    {
      var requested := Requested(filters);
      rows := [];
      if packet.Some? {
        var layers := packet.value.layers;
        var i := 0;
        while i < |layers|
          invariant 0 <= i <= |layers|
          invariant rows == ShownLayers(layers[..i], requested)
        {
          var name := layers[i].ClassName();
          ShownLayersStep(layers, i, requested);
          var shown := requested.None? || exists req :: req in requested.value && Contains(Lower(name), req);
          assert shown == Shown(requested, name);
          if shown {
            rows := rows + [name];
          }
          i := i + 1;
        }
        assert layers[..|layers|] == layers;
      }
    }

    /**
     * `process_packet`: counts the packet and its size first, then marks it;
     * a marked packet goes to the classifier when there is one. A packet
     * without an IP header is counted and goes no further (the classifier
     * fails on None and the error is caught).
     */
    method ProcessPacket(packet: Packet, size: nat)
      requires classifier.Some? ==> classifier.value.slicer.Valid()
      modifies metrics, packet, Dispatchers()
      ensures metrics.packetCount == old(metrics.packetCount) + 1
      ensures metrics.totalData == old(metrics.totalData) + size
      ensures metrics.startTime == old(metrics.startTime)
      ensures classifier.Some? ==> classifier.value.slicer.Valid()
      ensures !HasHeader(old(packet.layers), "IP") ==>
        packet.layers == old(packet.layers) &&
        (classifier.Some? ==> classifier.value.slicer.stats == old(classifier.value.slicer.stats))
      ensures HasHeader(old(packet.layers), "IP") && classifier.None? ==>
        exists tos :: 1 <= tos <= 4 && packet.layers == Marked(old(packet.layers), tos)
      ensures HasHeader(old(packet.layers), "IP") && classifier.Some? ==>
        exists tos :: 1 <= tos <= 4 && packet.layers == WithoutInnerSlice(Marked(old(packet.layers), tos))
      ensures HasHeader(old(packet.layers), "IP") && classifier.Some? ==>
        classifier.value.slicer.stats ==
          if HasSliceLayer(old(packet.layers))
          then AfterPacket(old(classifier.value.slicer.stats), FirstSid(old(packet.layers)) as int)
          else old(classifier.value.slicer.stats)
    {
      ghost var before := packet.layers;
      metrics.Update(size);
      var marked := AddSliceInfo(packet);
      if marked.Some? && classifier.Some? {
        ghost var tos :| 1 <= tos <= 4 && packet.layers == Marked(before, tos);
        MarkedKeepsTags(before, tos);
        classifier.value.ClassifyPacket(marked.value);
        if !HasSliceLayer(before) {
          assert FirstSliceFrom(Marked(before, tos), 1).None?;
        }
      }
    }
  }
}
