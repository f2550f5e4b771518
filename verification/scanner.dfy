/**
 * Model of core/scanner.py: the titles of the interface menu and the
 * normalisation of the selected protocols and BPF text into one capture
 * filter. The psutil queries and the questionary prompts are inputs.
 */
module Scanning {
  import opened Wrappers
  import opened Seqs
  import opened PyText

  /** `socket.AF_INET` (2 on Linux and on macOS). */
  const AF_INET: int := 2

  /** One address record of `psutil.net_if_addrs()[iface]`. */
  datatype Address = Address(family: int, address: string)

  /** One item of `psutil.net_if_addrs()`, in dictionary order. */
  datatype Interface = Interface(name: string, addrs: seq<Address>)

  /** A `questionary.Choice(title=..., value=...)`. */
  datatype Choice = Choice(title: string, value: string)

  /** The protocol choices `packet_filter` offers (all checked by default). */
  const PROTOCOLS: seq<string> := ["IP", "TCP", "UDP", "ICMP"]

  /** The message of the checkbox validator. */
  const EMPTY_SELECTION := "You must select at least one protocol"

  // ---------------------------------------------------------------------
  // Interface titles
  // ---------------------------------------------------------------------

  /** Index of the first `AF_INET` record, the one the inner loop of `_get_interfaces` stops at. */
  function FirstInet(addrs: seq<Address>): (r: Option<nat>)
    ensures r.Some? ==> r.value < |addrs| && addrs[r.value].family == AF_INET
    ensures r.Some? ==> forall m :: 0 <= m < r.value ==> addrs[m].family != AF_INET
    ensures r.None? ==> forall m :: 0 <= m < |addrs| ==> addrs[m].family != AF_INET
  {
    if |addrs| == 0 then None
    else if addrs[0].family == AF_INET then Some(0)
    else match FirstInet(addrs[1..]) case None => None case Some(k) => Some(k + 1)
  }

  /** The IPv4 address shown in a title: the first `AF_INET` address, when it is not empty (`if ip4:`). */
  function ShownAddress(addrs: seq<Address>): Option<string> {
    match FirstInet(addrs)
    case None => None
    case Some(k) => if addrs[k].address != "" then Some(addrs[k].address) else None
  }

  /** `Up` iff psutil has a stats entry for the interface and its `isup` flag is set. */
  predicate IsUp(name: string, isup: map<string, bool>) {
    name in isup && isup[name]
  }

  function Status(name: string, isup: map<string, bool>): string {
    if IsUp(name, isup) then "Up" else "Down"
  }

  /** The menu title of one interface. */
  function Title(iface: Interface, isup: map<string, bool>): string {
    var head := iface.name + " " + Status(iface.name, isup);
    match ShownAddress(iface.addrs)
    case Some(ip) => head + " inet " + ip
    case None => head
  }

  /** Reads a title back, given the interface name: whether it says `Up`, and the address after ` inet `. */
  function ParseTitle(name: string, title: string): Option<(bool, Option<string>)> {
    var n := |name| + 1;
    if !(name + " " <= title) then None
    else
      var rest := title[n..];
      if "Up" <= rest then ParseTail(true, rest[2..])
      else if "Down" <= rest then ParseTail(false, rest[4..])
      else None
  }

  function ParseTail(up: bool, tail: string): Option<(bool, Option<string>)> {
    if tail == "" then Some((up, None))
    else if " inet " <= tail && |tail| > 6 then Some((up, Some(tail[6..])))
    else None
  }

  /** The status word after the name is read back, and the rest is left to `ParseTail`. */
  lemma ParseTitleOf(name: string, up: bool, tail: string)
    ensures ParseTitle(name, name + " " + (if up then "Up" else "Down") + tail) == ParseTail(up, tail)
  {
    var st := if up then "Up" else "Down";
    var t := name + " " + st + tail;
    assert t == (name + " ") + (st + tail);
    assert t[|name| + 1..] == st + tail;
    if up {
      assert (st + tail)[..2] == "Up";
      assert (st + tail)[2..] == tail;
    } else {
      assert (st + tail)[0] == 'D';
      assert (st + tail)[..4] == "Down";
      assert (st + tail)[4..] == tail;
    }
  }

  /** The address after ` inet ` is read back. */
  lemma ParseTailOf(up: bool, ip: string)
    requires ip != ""
    ensures ParseTail(up, " inet " + ip) == Some((up, Some(ip)))
  {
    assert (" inet " + ip)[..6] == " inet ";
    assert (" inet " + ip)[6..] == ip;
  }

  /** A title gives back the interface's status and its shown IPv4 address. */
  lemma TitleRoundTrip(iface: Interface, isup: map<string, bool>)
    ensures ParseTitle(iface.name, Title(iface, isup)) == Some((IsUp(iface.name, isup), ShownAddress(iface.addrs)))
  {
    var up := IsUp(iface.name, isup);
    match ShownAddress(iface.addrs)
    case Some(ip) =>
      ParseTitleOf(iface.name, up, " inet " + ip);
      ParseTailOf(up, ip);
      assert Title(iface, isup) == iface.name + " " + Status(iface.name, isup) + (" inet " + ip);
    case None =>
      ParseTitleOf(iface.name, up, "");
      assert Title(iface, isup) == iface.name + " " + Status(iface.name, isup) + "";
  }

  /**
   * `_get_interfaces`: one choice per interface, in dictionary order, whose
   * value is the interface name and whose title is built from the first
   * IPv4 address and the up/down status.
   */
  method GetInterfaces(interfaces: seq<Interface>, isup: map<string, bool>) returns (choices: seq<Choice>)
    ensures |choices| == |interfaces|
    ensures forall i :: 0 <= i < |interfaces| ==>
      choices[i] == Choice(Title(interfaces[i], isup), interfaces[i].name)
  {
    choices := [];
    for i := 0 to |interfaces|
      invariant |choices| == i
      invariant forall j :: 0 <= j < i ==> choices[j] == Choice(Title(interfaces[j], isup), interfaces[j].name)
    {
      var iface := interfaces[i];
      var ip4: Option<string> := None;
      var k := 0;
      while k < |iface.addrs|
        invariant 0 <= k <= |iface.addrs|
        invariant forall m :: 0 <= m < k ==> iface.addrs[m].family != AF_INET
        invariant ip4 == None
      {
        if iface.addrs[k].family == AF_INET {
          ip4 := Some(iface.addrs[k].address);
          break;
        }
        k := k + 1;
      }
      assert ip4 == (match FirstInet(iface.addrs) case None => None case Some(m) => Some(iface.addrs[m].address));
      var status := if iface.name in isup && isup[iface.name] then "Up" else "Down";
      var title;
      if ip4.Some? && ip4.value != "" {
        title := iface.name + " " + status + " inet " + ip4.value;
      } else {
        title := iface.name + " " + status;
      }
      choices := choices + [Choice(title, iface.name)];
    }
  }

  // ---------------------------------------------------------------------
  // Filter normalisation
  // ---------------------------------------------------------------------

  /** The checkbox validator: the message when nothing is selected, None (Python's `True`) otherwise. */
  function ValidateSelection(answer: seq<string>): (r: Option<string>)
    ensures r.Some? <==> |answer| == 0
    ensures r.Some? ==> r.value == EMPTY_SELECTION
  {
    if |answer| == 0 then Some(EMPTY_SELECTION) else None
  }

  /** `selected_protocols + ([bpf_filter] if bpf_filter else [])`; a cancelled BPF prompt is the empty text. */
  function Candidates(selected: seq<string>, bpf: string): seq<string> {
    selected + (if bpf != "" then [bpf] else [])
  }

  /** The generator's test: `item.strip() and not any(char.isspace() for char in item)`. */
  predicate Kept(item: string) {
    Strip(item) != "" && !HasSpace(item)
  }

  /** An item is kept exactly when it is non-empty and holds no whitespace character. */
  lemma KeptIff(item: string)
    ensures Kept(item) <==> item != "" && !HasSpace(item)
  {
    if item != "" && !HasSpace(item) {
      StripPadded("", item, "");
      assert "" + item + "" == item;
    }
  }

  /** `item.lower() for item in items if Kept(item)`, in order. */
  function KeptLowered(items: seq<string>): (r: seq<string>)
    ensures forall i :: 0 <= i < |r| ==> r[i] != "" && !HasSpace(r[i]) && IsLower(r[i])
  {
    if |items| == 0 then []
    else
      var head := items[0];
      var rest := KeptLowered(items[1..]);
      if Kept(head) then
        KeptIff(head);
        LowerIsLower(head);
        var r := [Lower(head)] + rest;
        assert forall i :: 1 <= i < |r| ==> r[i] == rest[i - 1];
        r
      else rest
  }

  lemma {:induction false} KeptLoweredAppend(a: seq<string>, b: seq<string>)
    ensures KeptLowered(a + b) == KeptLowered(a) + KeptLowered(b)
  {
    if |a| > 0 {
      assert (a + b)[0] == a[0];
      assert (a + b)[1..] == a[1..] + b;
      KeptLoweredAppend(a[1..], b);
    } else {
      assert a + b == b;
    }
  }

  /** A token comes out exactly for each kept item, lowered. */
  lemma {:induction false} KeptLoweredMembers(items: seq<string>, t: string)
    ensures t in KeptLowered(items) <==> exists i :: 0 <= i < |items| && Kept(items[i]) && Lower(items[i]) == t
  {
    if |items| > 0 {
      var tail := items[1..];
      KeptLoweredMembers(tail, t);
      assert forall i :: 1 <= i < |items| ==> items[i] == tail[i - 1];
      if Kept(items[0]) {
        assert KeptLowered(items) == [Lower(items[0])] + KeptLowered(tail);
      } else {
        assert KeptLowered(items) == KeptLowered(tail);
      }
    }
  }

  /** The tokens of the filter: the kept candidates, lowered, first occurrences only. */
  function FilterTokens(selected: seq<string>, bpf: string): seq<string> {
    Dedup(KeptLowered(Candidates(selected, bpf)))
  }

  /** `" or ".join(...)`, the value `packet_filter` stores in `self.filters` and returns. */
  function FilterString(selected: seq<string>, bpf: string): string {
    Join(FilterTokens(selected, bpf), " or ")
  }

  /**
   * What the tokens are: non-empty, free of whitespace, lower-case and
   * distinct; each is the lowered form of a kept candidate and each kept
   * candidate yields one; they appear in the order of first occurrence.
   */
  lemma FilterTokensSpec(selected: seq<string>, bpf: string)
    ensures var r := FilterTokens(selected, bpf);
      && NoDups(r)
      && (forall i :: 0 <= i < |r| ==> r[i] != "" && !HasSpace(r[i]) && IsLower(r[i]))
      && (forall t :: t in r <==>
            exists i :: 0 <= i < |Candidates(selected, bpf)| &&
              Kept(Candidates(selected, bpf)[i]) && Lower(Candidates(selected, bpf)[i]) == t)
      && (forall i, j :: 0 <= i < j < |r| ==>
            FirstIndex(KeptLowered(Candidates(selected, bpf)), r[i]) < FirstIndex(KeptLowered(Candidates(selected, bpf)), r[j]))
  {
    var items := Candidates(selected, bpf);
    var k := KeptLowered(items);
    var r := Dedup(k);
    forall t ensures t in r <==> exists i :: 0 <= i < |items| && Kept(items[i]) && Lower(items[i]) == t {
      KeptLoweredMembers(items, t);
      if t in k {
        var i :| 0 <= i < |k| && k[i] == t;
        assert k[i] in r;
      }
      if t in r {
        var i :| 0 <= i < |r| && r[i] == t;
        assert r[i] in k;
      }
    }
    forall i | 0 <= i < |r| ensures r[i] != "" && !HasSpace(r[i]) && IsLower(r[i]) {
      assert r[i] in k;
    }
  }

  /** A BPF text that holds whitespace (any multi-word expression) is dropped without a trace. */
  lemma MultiWordBpfDropped(selected: seq<string>, bpf: string)
    requires HasSpace(bpf)
    ensures FilterString(selected, bpf) == FilterString(selected, "")
  {
    assert Candidates(selected, bpf) == selected + [bpf];
    assert Candidates(selected, "") == selected;
    KeptLoweredAppend(selected, [bpf]);
    KeptIff(bpf);
    assert [bpf][1..] == [];
    assert KeptLowered([bpf]) == [];
    assert KeptLowered(selected) + [] == KeptLowered(selected);
  }

  /** A single-word BPF text is lowered and appended after the protocols, unless it repeats one. */
  lemma SingleWordBpfAppended(selected: seq<string>, bpf: string)
    requires bpf != "" && !HasSpace(bpf)
    ensures FilterTokens(selected, bpf) == Dedup(KeptLowered(selected) + [Lower(bpf)])
  {
    KeptLoweredAppend(selected, [bpf]);
    KeptIff(bpf);
    assert [bpf][1..] == [];
  }

  /** Any selection the validator lets through yields a non-empty filter. */
  lemma AcceptedSelectionFilter(answer: seq<string>, bpf: string)
    requires ValidateSelection(answer).None?
    requires forall i :: 0 <= i < |answer| ==> answer[i] in PROTOCOLS
    ensures FilterString(answer, bpf) != ""
    ensures Lower(answer[0]) in FilterTokens(answer, bpf)
  {
    var items := Candidates(answer, bpf);
    assert items[0] == answer[0];
    assert answer[0] in PROTOCOLS;
    ProtocolsAreWords();
    KeptIff(answer[0]);
    KeptLoweredMembers(items, Lower(answer[0]));
    var k := KeptLowered(items);
    var r := FilterTokens(answer, bpf);
    var i :| 0 <= i < |k| && k[i] == Lower(answer[0]);
    assert k[i] in r;
    assert |r| > 0;
    assert r[0] != "" by { FilterTokensSpec(answer, bpf); }
    JoinStartsWithFirst(r, " or ");
  }

  /** A word of upper-case letters other than `O` is a non-empty word whose lowered form holds no `or`. */
  lemma CapitalWord(p: string)
    requires |p| > 0 && forall i :: 0 <= i < |p| ==> 'A' <= p[i] <= 'Z' && p[i] != 'O'
    ensures p != "" && !HasSpace(p) && !Contains(Lower(p), "or")
  {
    var l := Lower(p);
    assert forall i :: 0 <= i < |l| ==> l[i] != 'o';
    if Contains(l, "or") {
      OrStartsWithO(l);
      assert false;
    }
  }

  /** A text that contains `or` contains an `o`. */
  lemma OrStartsWithO(s: string)
    requires Contains(s, "or")
    ensures exists k :: 0 <= k < |s| && s[k] == 'o'
  {
    var k := Find(s, "or").value;
    assert s[k..k + 2][0] == s[k];
  }

  /** Every offered protocol name is a non-empty word, lower-cased without the substring `or`. */
  lemma ProtocolsAreWords()
    ensures forall p :: p in PROTOCOLS ==> p != "" && !HasSpace(p) && !Contains(Lower(p), "or")
  {
    CapitalWord("IP");
    CapitalWord("TCP");
    CapitalWord("UDP");
    CapitalWord("ICMP");
  }

  lemma JoinStartsWithFirst(xs: seq<string>, sep: string)
    requires |xs| > 0
    ensures xs[0] <= Join(xs, sep)
  {
  }

  /** The menu state: the chosen interface and the capture filter. */
  class Scanner {
    var interface: Option<string>
    var filters: Option<string>

    constructor ()
      ensures interface == None && filters == None
    {
      interface := None;
      filters := None;
    }

    /**
     * `select_interface`: offers the interface menu and stores the chosen
     * value. `pick` is the menu position the user chooses (None when the
     * prompt is cancelled, which makes `ask()` return None).
     */
    method SelectInterface(interfaces: seq<Interface>, isup: map<string, bool>, pick: Option<nat>)
      returns (selected: Option<string>)
      requires pick.Some? ==> pick.value < |interfaces|
      modifies this`interface
      ensures selected == (if pick.Some? then Some(interfaces[pick.value].name) else None)
      ensures interface == selected && filters == old(filters)
    {
      var choices := GetInterfaces(interfaces, isup);
      selected := if pick.Some? then Some(choices[pick.value].value) else None;
      interface := selected;
    }

    /** `packet_filter`: stores and returns the normalised filter built from the two prompt answers. */
    method PacketFilter(selectedProtocols: seq<string>, bpf: string) returns (f: string)
      modifies this`filters
      ensures f == FilterString(selectedProtocols, bpf)
      ensures filters == Some(f) && interface == old(interface)
    {
      f := FilterString(selectedProtocols, bpf);
      filters := Some(f);
    }
  }
}
