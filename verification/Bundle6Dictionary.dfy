/**
 * The dictionary of a BPv6 bundle (components/bundle6/bundle6.c, lines 13-73 and 120-205, and
 * components/bundle6/parser.c, lines 124-151; section 4.5 of RFC 5050): each EID is kept as its scheme
 * and its scheme-specific part, both terminated by a zero.
 */
module Bundle6Dictionary {
  import opened Basics
  import opened Sdnv

  type Text = seq<Octet>

  const COLON: Octet := 58
  const DTN: Text := [100, 116, 110]
  const NONE: Text := [110, 111, 110, 101]

  /** A C string holds no zero. */
  predicate NoZero(t: Text) { forall i :: 0 <= i < |t| ==> t[i] != 0 }

  /** strchr: the place of the first colon, or the end */
  function ColonAt(eid: Text): (i: nat)
    ensures i <= |eid| && (i < |eid| ==> eid[i] == COLON)
  {
    if eid == [] || eid[0] == COLON then 0 else ColonAt(eid[1..]) + 1
  }

  lemma {:induction false} NoColonBefore(eid: Text)
    ensures forall j :: 0 <= j < ColonAt(eid) ==> eid[j] != COLON
  {
    if eid != [] && eid[0] != COLON {
      NoColonBefore(eid[1..]);
      forall j | 0 <= j < ColonAt(eid) ensures eid[j] != COLON {
        if j > 0 { assert eid[j] == eid[1..][j - 1]; }
      }
    }
  }

  predicate HasColon(eid: Option<Text>) { eid.Some? && ColonAt(eid.value) < |eid.value| }

  function Scheme(eid: Option<Text>): Text { if HasColon(eid) then eid.value[..ColonAt(eid.value)] else DTN }

  function Ssp(eid: Option<Text>): Text { if HasColon(eid) then eid.value[ColonAt(eid.value) + 1..] else NONE }

  /** What an EID stands for: no EID, or one without a colon, is dtn:none. */
  function Normal(eid: Option<Text>): Text { Scheme(eid) + [COLON] + Ssp(eid) }

  lemma Around(t: Text, i: nat)
    requires i < |t|
    ensures t[..i] + [t[i]] + t[i + 1..] == t
  {
  }

  lemma {:induction false} NormalIsEid(eid: Text)
    requires ColonAt(eid) < |eid|
    ensures Normal(Some(eid)) == eid
  {
    Around(eid, ColonAt(eid));
  }

  /** write_eid */
  function Entry(eid: Option<Text>): Text { Scheme(eid) + [0] + (Ssp(eid) + [0]) }

  function Concat(parts: seq<Text>): Text {
    if parts == [] then [] else Concat(parts[..|parts| - 1]) + parts[|parts| - 1]
  }

  function Entries(eids: seq<Option<Text>>): (r: seq<Text>)
    ensures |r| == |eids|
  {
    if eids == [] then [] else [Entry(eids[0])] + Entries(eids[1..])
  }

  lemma {:induction false} EntryIs(eids: seq<Option<Text>>, i: nat)
    requires i < |eids|
    ensures Entries(eids)[i] == Entry(eids[i])
  {
    if i > 0 { EntryIs(eids[1..], i - 1); }
  }

  function Dictionary(eids: seq<Option<Text>>): Text { Concat(Entries(eids)) }

  /** Where the scheme and the scheme-specific part of the `i`-th EID start. */
  function SchemeOffset(eids: seq<Option<Text>>, i: nat): nat
    requires i < |eids|
  {
    |Concat(Entries(eids)[..i])|
  }

  function SspOffset(eids: seq<Option<Text>>, i: nat): nat
    requires i < |eids|
  {
    SchemeOffset(eids, i) + |Scheme(eids[i])| + 1
  }

  lemma ConcatStep(parts: seq<Text>, k: nat)
    requires k < |parts|
    ensures Concat(parts[..k + 1]) == Concat(parts[..k]) + parts[k]
  {
    assert parts[..k + 1][..k] == parts[..k];
  }

  /** calculate_eid_info and write_eid: the offsets of an EID that is appended to the dictionary */
  method WriteEid(dict: Text, eid: Option<Text>) returns (r: Text, scheme: nat, ssp: nat)
    ensures r == dict + Entry(eid) && scheme == |dict| && ssp == |dict| + |Scheme(eid)| + 1
  {
    scheme, ssp := |dict|, |dict| + |Scheme(eid)| + 1;
    r := dict + Entry(eid);
  }

  /** bundle6_calculate_dict and bundle6_serialize_dictionary */
  method WriteDictionary(eids: seq<Option<Text>>) returns (dict: Text, schemes: seq<nat>)
    ensures dict == Dictionary(eids) && |schemes| == |eids|
    ensures forall i :: 0 <= i < |eids| ==> schemes[i] == SchemeOffset(eids, i)
  {
    dict, schemes := [], [];
    ghost var entries := Entries(eids);
    for k := 0 to |eids|
      invariant dict == Concat(entries[..k]) && |schemes| == k
      invariant forall i :: 0 <= i < k ==> schemes[i] == |Concat(entries[..i])|
    {
      ConcatStep(entries, k);
      EntryIs(eids, k);
      var scheme, ssp;
      dict, scheme, ssp := WriteEid(dict, eids[k]);
      schemes := schemes + [scheme];
    }
    assert entries[..|eids|] == entries;
  }

  /** bundle6_get_dict_length counts an EID by its length. */
  function CountedLength(eid: Option<Text>): nat { if eid.Some? then |eid.value| + 1 else 9 }

  /** The count is right just for EIDs with a colon, for none, and by chance for those as long as dtn:none. */
  lemma CountedRight(eid: Option<Text>)
    ensures CountedLength(eid) == |Entry(eid)| <==> eid.None? || HasColon(eid) || |eid.value| == 8
  {
  }

  // ---- reading ----

  /** The C string at an offset; the parser keeps a zero behind the dictionary. */
  function CString(dict: Text, offset: nat): (t: Text)
    ensures offset + |t| <= |dict| || t == []
    decreases |dict| - offset
  {
    if offset >= |dict| || dict[offset] == 0 then [] else [dict[offset]] + CString(dict, offset + 1)
  }

  /** bundle6_read_eid */
  function ReadEid(dict: Text, scheme: nat, ssp: nat): Option<Text> {
    if scheme >= |dict| || ssp >= |dict| || COLON in CString(dict, scheme) then None
    else Some(CString(dict, scheme) + [COLON] + CString(dict, ssp))
  }

  lemma {:induction false} CStringAt(dict: Text, offset: nat, t: Text)
    requires NoZero(t) && offset + |t| < |dict| && dict[offset..offset + |t|] == t && dict[offset + |t|] == 0
    ensures CString(dict, offset) == t
    decreases |t|
  {
    if t != [] {
      assert dict[offset] == dict[offset..offset + |t|][0];
      assert dict[offset + 1..offset + 1 + |t[1..]|] == dict[offset..offset + |t|][1..];
      CStringAt(dict, offset + 1, t[1..]);
    }
  }

  lemma {:induction false} ConcatPrefix(parts: seq<Text>, i: nat)
    requires i <= |parts|
    ensures Concat(parts[..i]) <= Concat(parts)
  {
    if i < |parts| {
      assert parts[..|parts| - 1][..i] == parts[..i];
      ConcatPrefix(parts[..|parts| - 1], i);
    } else {
      assert parts[..i] == parts;
    }
  }

  /** Where the `i`-th part is. */
  lemma {:induction false} PartAt(parts: seq<Text>, i: nat)
    requires i < |parts|
    ensures var d, o := Concat(parts), |Concat(parts[..i])|;
      o + |parts[i]| <= |d| && d[o..o + |parts[i]|] == parts[i]
  {
    ConcatStep(parts, i);
    ConcatPrefix(parts, i + 1);
  }

  ghost predicate EidsOk(eids: seq<Option<Text>>) {
    forall i :: 0 <= i < |eids| && eids[i].Some? ==> NoZero(eids[i].value)
  }

  /** Two terminated strings in the dictionary. */
  lemma StringsRead(d: Text, o: nat, a: Text, b: Text)
    requires NoZero(a) && NoZero(b) && COLON !in a
    requires o + |a| + |b| + 2 <= |d| && d[o..o + (|a| + |b| + 2)] == a + [0] + (b + [0])
    ensures ReadEid(d, o, o + |a| + 1) == Some(a + [COLON] + b)
  {
    var e, s, t := a + [0] + (b + [0]), |a|, |b|;
    EntrySlices(a, b);
    SubSlice(d, o, e, 0, s);
    SubSlice(d, o, e, s, s + 1);
    SubSlice(d, o, e, s + 1, s + 1 + t);
    SubSlice(d, o, e, s + 1 + t, s + 2 + t);
    assert d[o + s] == d[o + s..o + (s + 1)][0] && d[o + (s + 1 + t)] == d[o + (s + 1 + t)..o + (s + 2 + t)][0];
    CStringAt(d, o, a);
    CStringAt(d, o + s + 1, b);
  }

  lemma EntrySlices(a: Text, b: Text)
    ensures var e := a + [0] + (b + [0]);
      && e[0..|a|] == a && e[|a|..|a| + 1] == [0]
      && e[|a| + 1..|a| + 1 + |b|] == b && e[|a| + 1 + |b|..|a| + 2 + |b|] == [0]
  {
    var e := a + [0] + (b + [0]);
    assert e[|a| + 1..] == b + [0];
    assert e[|a| + 1..|a| + 1 + |b|] == e[|a| + 1..][..|b|];
  }

  lemma SubSlice(dict: Text, o: nat, e: Text, i: nat, j: nat)
    requires o + |e| <= |dict| && dict[o..o + |e|] == e && i <= j <= |e|
    ensures dict[o + i..o + j] == e[i..j]
  {
    var x, y := dict[o + i..o + j], e[i..j];
    forall k | 0 <= k < j - i ensures x[k] == y[k] {
      assert e[i + k] == dict[o..o + |e|][i + k];
    }
  }

  lemma PartsNoZero(eid: Option<Text>)
    requires eid.Some? ==> NoZero(eid.value)
    ensures NoZero(Scheme(eid)) && NoZero(Ssp(eid)) && COLON !in Scheme(eid)
  {
    if HasColon(eid) { NoColonBefore(eid.value); }
  }

  lemma EntryRead(d: Text, o: nat, eid: Option<Text>, e: Text, ssp: nat)
    requires e == Entry(eid) && o + |e| <= |d| && d[o..o + |e|] == e && (eid.Some? ==> NoZero(eid.value))
    requires ssp == o + |Scheme(eid)| + 1
    ensures ReadEid(d, o, ssp) == Some(Normal(eid))
  {
    PartsNoZero(eid);
    StringsRead(d, o, Scheme(eid), Ssp(eid));
  }

  /** The offsets lead to zero-terminated strings that give the EID back. */
  lemma DictionaryRead(eids: seq<Option<Text>>, i: nat)
    requires i < |eids| && EidsOk(eids)
    ensures ReadEid(Dictionary(eids), SchemeOffset(eids, i), SspOffset(eids, i)) == Some(Normal(eids[i]))
  {
    var entries := Entries(eids);
    PartAt(entries, i);
    EntryIs(eids, i);
    EntryRead(Dictionary(eids), SchemeOffset(eids, i), eids[i], entries[i], SspOffset(eids, i));
  }
}
