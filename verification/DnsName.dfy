/** Domain names on the wire: `encode_dns_name` and `skip_name_field` of wires.cpp, against the
    label form of RFC 1035 sections 3.1 and 4.1.4. */
module DnsName {
  import opened Wrappers
  import opened Sequences

  type byte = x: int | 0 <= x < 256

  const DOT: byte := 46

  // ---------------------------------------------------------------- labels of a dotted name

  /** The non-empty labels of `octets + text`, where `octets` has no dot of its own. */
  function LabelsFrom(octets: seq<byte>, text: seq<byte>): seq<seq<byte>>
    decreases text
  {
    if text == [] then (if octets == [] then [] else [octets])
    else if text[0] == DOT then (if octets == [] then [] else [octets]) + LabelsFrom([], text[1..])
    else LabelsFrom(octets + [text[0]], text[1..])
  }

  function Labels(name: seq<byte>): seq<seq<byte>> {
    LabelsFrom([], name)
  }

  /** A length octet and the octets of the label, for each label. A length above 255 loses its
      high bits in the conversion to an octet. */
  function LabelBytes(labels: seq<seq<byte>>): seq<byte> {
    if labels == [] then [] else ([|labels[0]| % 256] + labels[0]) + LabelBytes(labels[1..])
  }

  predicate WireLabel(octets: seq<byte>) {
    1 <= |octets| <= 63
  }

  lemma {:induction false} LabelBytesConcat(a: seq<seq<byte>>, b: seq<seq<byte>>)
    ensures LabelBytes(a + b) == LabelBytes(a) + LabelBytes(b)
  {
    if a == [] {
      assert a + b == b;
    } else {
      assert (a + b)[1..] == a[1..] + b;
      LabelBytesConcat(a[1..], b);
      Associate([|a[0]| % 256] + a[0], LabelBytes(a[1..]), LabelBytes(b));
    }
  }

  /** Grows the encoding label by label; a dot behind the name closes the last label. */
  method EncodeDnsName(domain: seq<byte>) returns (encoded: seq<byte>)
    ensures encoded == LabelBytes(Labels(domain)) + [0]
  {
    encoded := [];
    var octets: seq<byte> := [];
    var target := domain + [DOT];
    ghost var closed: seq<seq<byte>> := [];
    TrailingDot([], domain);
    assert target[0..] == target;
    for i := 0 to |target|
      invariant encoded == LabelBytes(closed)
      invariant Labels(domain) == closed + LabelsFrom(octets, target[i..])
      invariant i == |target| ==> octets == []
    {
      var c := target[i];
      assert target[i..][0] == c && target[i..][1..] == target[i + 1..];
      if c == DOT {
        if octets != [] {
          assert LabelBytes([octets]) == [|octets| % 256] + octets;
          LabelBytesConcat(closed, [octets]);
          encoded := encoded + ([|octets| % 256] + octets);
          Associate(closed, [octets], LabelsFrom([], target[i + 1..]));
          closed := closed + [octets];
          octets := [];
        }
      } else {
        octets := octets + [c];
      }
    }
    assert closed + [] == closed;
    encoded := encoded + [0];
  }

  lemma {:induction false} TrailingDot(octets: seq<byte>, text: seq<byte>)
    ensures LabelsFrom(octets, text + [DOT]) == LabelsFrom(octets, text)
    decreases text
  {
    if text == [] {
      assert text + [DOT] == [DOT];
      assert LabelsFrom([], [DOT][1..]) == [];
    } else {
      assert (text + [DOT])[1..] == text[1..] + [DOT];
      TrailingDot(if text[0] == DOT then [] else octets + [text[0]], text[1..]);
    }
  }

  /** No label is empty or holds a dot. */
  lemma {:induction false} LabelsAreLabels(octets: seq<byte>, text: seq<byte>)
    requires DOT !in octets
    ensures forall l | l in LabelsFrom(octets, text) :: l != [] && DOT !in l
    decreases text
  {
    if text != [] {
      if text[0] == DOT {
        LabelsAreLabels([], text[1..]);
      } else {
        LabelsAreLabels(octets + [text[0]], text[1..]);
      }
    }
  }

  lemma LabelBytesCons(l: seq<byte>, more: seq<seq<byte>>)
    ensures LabelBytes([l] + more) == ([|l| % 256] + l) + LabelBytes(more)
  {}

  lemma {:induction false} EncodingIsShort(octets: seq<byte>, text: seq<byte>)
    ensures |LabelBytes(LabelsFrom(octets, text))| <= |octets| + |text| + 1
    decreases text
  {
    if text == [] {
      LabelBytesCons(octets, []);
      assert [octets] + [] == [octets];
    } else if text[0] == DOT {
      EncodingIsShort([], text[1..]);
      assert [] + LabelsFrom([], text[1..]) == LabelsFrom([], text[1..]);
      LabelBytesCons(octets, LabelsFrom([], text[1..]));
    } else {
      EncodingIsShort(octets + [text[0]], text[1..]);
    }
  }

  // ---------------------------------------------------------------- what the labels are

  function Dots(n: nat): seq<byte> {
    if n == 0 then [] else [46] + Dots(n - 1)
  }

  /** Labels with runs of dots, the octet 46, before, between and behind them. */
  function Weave(gaps: seq<nat>, labels: seq<seq<byte>>): seq<byte>
    requires |gaps| == |labels| + 1
    decreases labels
  {
    if labels == [] then Dots(gaps[0]) else Dots(gaps[0]) + (labels[0] + Weave(gaps[1..], labels[1..]))
  }

  /** Every name is its labels in order with dots around them, at least one between two labels.
      No label is empty or holds a dot, so a label ends exactly at a dot or at the end. */
  lemma NameIsItsLabels(name: seq<byte>) returns (gaps: seq<nat>)
    ensures |gaps| == |Labels(name)| + 1 && name == Weave(gaps, Labels(name))
    ensures forall i :: 0 < i < |Labels(name)| ==> gaps[i] > 0
    ensures forall l | l in Labels(name) :: l != [] && 46 !in l
  {
    gaps := Woven([], name);
    assert [] + name == name;
    LabelsAreLabels([], name);
  }

  predicate IsWoven(text: seq<byte>, gaps: seq<nat>, labels: seq<seq<byte>>) {
    |gaps| == |labels| + 1 && text == Weave(gaps, labels) && forall i :: 0 < i < |labels| ==> gaps[i] > 0
  }

  lemma {:induction false} Woven(octets: seq<byte>, text: seq<byte>) returns (gaps: seq<nat>)
    ensures IsWoven(octets + text, gaps, LabelsFrom(octets, text)) && (octets != [] ==> gaps[0] == 0)
    decreases text
  {
    if text == [] {
      gaps := if octets == [] then [0] else [0, 0];
      if octets != [] {
        WeaveCons(octets, [0], []);
        assert [octets] + [] == [octets];
      }
    } else if text[0] == DOT {
      var behind := Woven([], text[1..]);
      assert [] + text[1..] == text[1..];
      gaps := WovenDot(octets, text, behind, LabelsFrom([], text[1..]));
    } else {
      gaps := Woven(octets + [text[0]], text[1..]);
      assert octets + [text[0]] + text[1..] == octets + text;
    }
  }

  lemma WovenDot(octets: seq<byte>, text: seq<byte>, behind: seq<nat>, more: seq<seq<byte>>) returns (gaps: seq<nat>)
    requires text != [] && text[0] == 46 && IsWoven(text[1..], behind, more)
    ensures IsWoven(octets + text, gaps, (if octets == [] then [] else [octets]) + more)
    ensures octets != [] ==> gaps[0] == 0
  {
    gaps := [behind[0] + 1] + behind[1..];
    assert gaps[1..] == behind[1..];
    OneMoreDot(behind, gaps, more);
    HeadAndTail(text);
    if octets == [] {
      assert [] + more == more && octets + text == text;
    } else {
      WeaveCons(octets, gaps, more);
      gaps := [0] + gaps;
    }
  }

  lemma WeaveCons(l: seq<byte>, gaps: seq<nat>, labels: seq<seq<byte>>)
    requires |gaps| == |labels| + 1
    ensures Weave([0] + gaps, [l] + labels) == l + Weave(gaps, labels)
  {
    assert ([0] + gaps)[1..] == gaps && ([l] + labels)[1..] == labels;
    assert Dots(0) + (l + Weave(gaps, labels)) == l + Weave(gaps, labels);
  }

  lemma OneMoreDot(behind: seq<nat>, gaps: seq<nat>, labels: seq<seq<byte>>)
    requires |behind| == |gaps| == |labels| + 1
    requires gaps[0] == behind[0] + 1 && gaps[1..] == behind[1..]
    ensures Weave(gaps, labels) == [46] + Weave(behind, labels)
  {
    assert Dots(gaps[0]) == [46] + Dots(behind[0]);
    if labels != [] {
      Associate([46], Dots(behind[0]), labels[0] + Weave(gaps[1..], labels[1..]));
    }
  }

  /** The labels with a single dot, the octet 46, between two of them. */
  function JoinDots(labels: seq<seq<byte>>): seq<byte> {
    if labels == [] then [] else if |labels| == 1 then labels[0] else labels[0] + ([46] + JoinDots(labels[1..]))
  }

  predicate HasNoEmptyLabel(name: seq<byte>) {
    name != [] && name[0] != 46 && name[|name| - 1] != 46
    && forall i :: 0 < i < |name| && name[i - 1] == 46 ==> name[i] != 46
  }

  /** A name without empty labels is its labels joined by dots. */
  lemma NameIsJoinedLabels(name: seq<byte>)
    requires HasNoEmptyLabel(name)
    ensures JoinDots(Labels(name)) == name
  {
    JoinsBack([name[0]], name[1..], name);
    assert [] + [name[0]] == [name[0]];
  }

  lemma {:induction false} JoinsBack(octets: seq<byte>, text: seq<byte>, name: seq<byte>)
    requires octets != [] && octets + text == name
    requires name[|name| - 1] != 46
    requires forall i :: 0 < i < |name| && name[i - 1] == 46 ==> name[i] != 46
    ensures JoinDots(LabelsFrom(octets, text)) == name
    decreases text
  {
    if text == [] {
    } else if text[0] == DOT {
      var behind := text[1..];
      assert name[|octets|] == 46;
      assert behind != [] && behind[0] == name[|octets| + 1];
      assert forall i :: 0 <= i < |behind| ==> behind[i] == name[|octets| + 1 + i];
      assert [] + [behind[0]] == [behind[0]];
      JoinsBack([behind[0]], behind[1..], behind);
      var more := LabelsFrom([], behind);
      assert ([octets] + more)[1..] == more;
      assert name == octets + ([46] + behind);
    } else {
      JoinsBack(octets + [text[0]], text[1..], name);
    }
  }

  /** Labels without dots come back from their joined form. */
  lemma {:induction false} JoinedLabelsComeBack(labels: seq<seq<byte>>)
    requires forall l | l in labels :: l != [] && 46 !in l
    ensures Labels(JoinDots(labels)) == labels
  {
    if labels != [] {
      var l := labels[0];
      assert l in labels;
      if |labels| == 1 {
        assert l + [] == l;
        TakesOctets([], l, []);
      } else {
        var more := JoinDots(labels[1..]);
        TakesOctets([], l, [46] + more);
        assert ([46] + more)[1..] == more;
        JoinedLabelsComeBack(labels[1..]);
        HeadAndTail(labels);
      }
      assert [] + l == l;
    }
  }

  lemma {:induction false} TakesOctets(octets: seq<byte>, l: seq<byte>, rest: seq<byte>)
    requires 46 !in l
    ensures LabelsFrom(octets, l + rest) == LabelsFrom(octets + l, rest)
    decreases l
  {
    if l == [] {
      assert l + rest == rest && octets + l == octets;
    } else {
      assert l[0] in l;
      assert (l + rest)[1..] == l[1..] + rest;
      TakesOctets(octets + [l[0]], l[1..], rest);
      assert octets + [l[0]] + l[1..] == octets + l;
    }
  }

  /** The octets of abc.de go out as 3 a b c 2 d e 0. */
  lemma SampleName()
    ensures LabelBytes(Labels([97, 98, 99, 46, 100, 101])) + [0] == [3, 97, 98, 99, 2, 100, 101, 0]
  {
    var abc, de: seq<byte> := [97, 98, 99], [100, 101];
    assert [abc, de][1..] == [de];
    assert JoinDots([abc, de]) == [97, 98, 99, 46, 100, 101];
    JoinedLabelsComeBack([abc, de]);
    LabelBytesCons(de, []);
    LabelBytesCons(abc, [de]);
    assert [de] + [] == [de] && [abc] + [de] == [abc, de];
  }

  // ---------------------------------------------------------------- decoding

  /** An uncompressed name at the head of `bytes`, as RFC 1035 section 3.1 reads it: labels of
      at most 63 octets up to the null label. */
  function DecodeName(bytes: seq<byte>): Option<(seq<seq<byte>>, seq<byte>)> {
    if bytes == [] then None
    else if bytes[0] == 0 then Some(([], bytes[1..]))
    else if bytes[0] > 63 || |bytes| < 1 + bytes[0] then None
    else match DecodeName(bytes[1 + bytes[0]..])
      case None => None
      case Some((labels, rest)) => Some(([bytes[1..1 + bytes[0]]] + labels, rest))
  }

  lemma {:induction false} DecodesToWireLabels(bytes: seq<byte>)
    ensures var d := DecodeName(bytes); d.Some? ==> forall l | l in d.value.0 :: WireLabel(l)
  {
    if bytes != [] && 0 < bytes[0] <= 63 && |bytes| >= 1 + bytes[0] {
      DecodesToWireLabels(bytes[1 + bytes[0]..]);
    }
  }

  lemma {:induction false} DecodesBack(labels: seq<seq<byte>>, rest: seq<byte>)
    requires forall l | l in labels :: WireLabel(l)
    ensures DecodeName(LabelBytes(labels) + ([0] + rest)) == Some((labels, rest))
  {
    if labels == [] {
      assert LabelBytes(labels) + ([0] + rest) == [0] + rest;
    } else {
      var l, more := labels[0], LabelBytes(labels[1..]) + ([0] + rest);
      assert l in labels;
      DecodesBack(labels[1..], rest);
      var bytes := LabelBytes(labels) + ([0] + rest);
      Associate([|l| % 256] + l, LabelBytes(labels[1..]), [0] + rest);
      Associate([|l| % 256], l, more);
      assert bytes[0] == |l|;
      DropAppend(l, more);
      assert bytes[1..] == l + more;
      assert bytes[1..1 + |l|] == l && bytes[1 + |l|..] == more;
      HeadAndTail(labels);
    }
  }

  /** A name decodes back to its labels exactly when none of them is longer than 63 octets; the
      encoding is at most two octets longer than the name. */
  lemma NameRoundTrip(name: seq<byte>)
    ensures DecodeName(LabelBytes(Labels(name)) + [0]) == Some((Labels(name), []))
            <==> forall l | l in Labels(name) :: |l| <= 63
    ensures |LabelBytes(Labels(name)) + [0]| <= |name| + 2
  {
    var bytes := LabelBytes(Labels(name)) + [0];
    LabelsAreLabels([], name);
    EncodingIsShort([], name);
    DecodesToWireLabels(bytes);
    if forall l | l in Labels(name) :: |l| <= 63 {
      assert [0] + [] == [0];
      DecodesBack(Labels(name), []);
    }
  }

  // ---------------------------------------------------------------- skipping

  /** The offset behind the name field at `offset`: two octets behind the start of a
      compression pointer, one behind the null label. */
  function SkipName(buffer: seq<byte>, offset: nat, length: nat): (end: nat)
    requires length <= |buffer|
    ensures end >= offset
    decreases length - offset
  {
    if offset >= length then offset
    else if buffer[offset] >= 0xC0 then offset + 2
    else if buffer[offset] == 0 then offset + 1
    else SkipName(buffer, offset + buffer[offset] + 1, length)
  }

  method SkipNameField(buffer: seq<byte>, start: nat, length: nat) returns (offset: nat)
    requires length <= |buffer|
    ensures offset == SkipName(buffer, start, length)
  {
    offset := start;
    while offset < length
      invariant SkipName(buffer, offset, length) == SkipName(buffer, start, length)
    {
      var len := buffer[offset];
      if len >= 0xC0 {
        return offset + 2;
      }
      if len == 0 {
        return offset + 1;
      }
      offset := offset + len + 1;
    }
  }

  /** A name as section 4.1.4 of RFC 1035 allows it in a message. */
  datatype NameEnd = Root | Pointer(high: byte, low: byte)
  datatype Name = Name(labels: seq<seq<byte>>, end: NameEnd)

  predicate WellFormedName(n: Name) {
    (forall l | l in n.labels :: WireLabel(l)) && (n.end.Pointer? ==> n.end.high >= 0xC0)
  }

  function EndBytes(end: NameEnd): seq<byte> {
    match end
    case Root => [0]
    case Pointer(high, low) => [high, low]
  }

  function NameBytes(n: Name): seq<byte> {
    LabelBytes(n.labels) + EndBytes(n.end)
  }

  /** `part` stands in `buffer` at `offset`. */
  predicate At(buffer: seq<byte>, offset: nat, part: seq<byte>) {
    offset + |part| <= |buffer| && buffer[offset..offset + |part|] == part
  }

  lemma AtParts(buffer: seq<byte>, offset: nat, a: seq<byte>, b: seq<byte>)
    requires At(buffer, offset, a + b)
    ensures At(buffer, offset, a) && At(buffer, offset + |a|, b)
  {
    var whole := buffer[offset..offset + |a + b|];
    assert buffer[offset..offset + |a|] == whole[..|a|] == a;
    assert buffer[offset + |a|..offset + |a| + |b|] == whole[|a|..] == b;
  }

  lemma AtIndex(buffer: seq<byte>, offset: nat, part: seq<byte>, i: nat)
    requires At(buffer, offset, part) && i < |part|
    ensures buffer[offset + i] == part[i]
  {
    assert buffer[offset..offset + |part|][i] == part[i];
  }

  lemma SkipsEnd(buffer: seq<byte>, offset: nat, length: nat, end: NameEnd)
    requires At(buffer, offset, LabelBytes([]) + EndBytes(end)) && offset < length <= |buffer|
    requires end.Pointer? ==> end.high >= 0xC0
    ensures SkipName(buffer, offset, length) == offset + |LabelBytes([]) + EndBytes(end)|
  {
    assert LabelBytes([]) + EndBytes(end) == EndBytes(end);
    AtIndex(buffer, offset, EndBytes(end), 0);
  }

  /** Skipping a name that stands anywhere in a buffer lands exactly behind it. Labels of up to
      191 octets are skipped as well. */
  lemma SkipLandsBehindName(buffer: seq<byte>, offset: nat, length: nat, labels: seq<seq<byte>>, end: NameEnd)
    requires At(buffer, offset, LabelBytes(labels) + EndBytes(end))
    requires offset + |LabelBytes(labels) + EndBytes(end)| <= length <= |buffer|
    requires forall l | l in labels :: 1 <= |l| < 0xC0
    requires end.Pointer? ==> end.high >= 0xC0
    ensures SkipName(buffer, offset, length) == offset + |LabelBytes(labels) + EndBytes(end)|
  {
    SkipsLabels(buffer, offset, length, labels, end, |LabelBytes(labels) + EndBytes(end)|);
  }

  lemma {:induction false} SkipsLabels(
      buffer: seq<byte>, offset: nat, length: nat, labels: seq<seq<byte>>, end: NameEnd, size: nat)
    requires At(buffer, offset, LabelBytes(labels) + EndBytes(end)) && size == |LabelBytes(labels) + EndBytes(end)|
    requires offset + size <= length <= |buffer|
    requires forall l | l in labels :: 1 <= |l| < 0xC0
    requires end.Pointer? ==> end.high >= 0xC0
    ensures SkipName(buffer, offset, length) == offset + size
    decreases labels
  {
    if labels == [] {
      SkipsEnd(buffer, offset, length, end);
    } else {
      var l := labels[0];
      assert l in labels;
      SplitName(labels, end);
      SkipsOneLabel(buffer, offset, length, l, LabelBytes(labels[1..]) + EndBytes(end));
      SkipsLabels(buffer, offset + 1 + |l|, length, labels[1..], end, size - 1 - |l|);
    }
  }

  lemma SplitName(labels: seq<seq<byte>>, end: NameEnd)
    requires labels != [] && |labels[0]| < 256
    ensures LabelBytes(labels) + EndBytes(end) ==
            ([|labels[0]|] + labels[0]) + (LabelBytes(labels[1..]) + EndBytes(end))
    ensures |LabelBytes(labels) + EndBytes(end)| == 1 + |labels[0]| + |LabelBytes(labels[1..]) + EndBytes(end)|
  {
    Associate([|labels[0]|] + labels[0], LabelBytes(labels[1..]), EndBytes(end));
  }

  lemma SkipsOneLabel(buffer: seq<byte>, offset: nat, length: nat, l: seq<byte>, tail: seq<byte>)
    requires 1 <= |l| < 0xC0 && offset < length <= |buffer|
    requires At(buffer, offset, ([|l|] + l) + tail)
    ensures SkipName(buffer, offset, length) == SkipName(buffer, offset + 1 + |l|, length)
    ensures At(buffer, offset + 1 + |l|, tail)
  {
    AtParts(buffer, offset, [|l|] + l, tail);
    AtIndex(buffer, offset, [|l|] + l, 0);
  }
}
