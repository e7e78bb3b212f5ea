/** Big-endian fields, and readers that take them off the front of a buffer. */
module Wire {
  import opened Word16

  /** A value read from the front of a buffer, and what follows it. */
  datatype Read<+T> = Short | Read(value: T, rest: seq<Byte>)

  function Pow256(k: nat): (r: nat)
    ensures r > 0
  {
    if k == 0 then 1 else 256 * Pow256(k - 1)
  }

  /** The byte of value `n`, by counting up from zero. */
  function ToByte(n: nat): Byte
    requires n < 256
  {
    if n == 0 then 0 else ToByte(n - 1) + 1
  }

  lemma NextByte(b: Byte)
    requires b < 255
    ensures (b + 1) as int == b as int + 1
  {
  }

  lemma {:induction false} ByteValue(n: nat)
    requires n < 256
    ensures ToByte(n) as int == n
  {
    if n > 0 {
      ByteValue(n - 1);
      NextByte(ToByte(n - 1));
    }
  }

  lemma SameValue(a: Byte, b: Byte)
    requires a as int == b as int
    ensures a == b
  {
  }

  lemma ValueByte(b: Byte)
    ensures ToByte(b as int) == b
  {
    ByteValue(b as int);
    SameValue(ToByte(b as int), b);
  }

  /** The low `k` bytes of `n`, most significant first: a conversion to an unsigned
      `k`-byte integer followed by a big-endian write. */
  function Put(n: nat, k: nat): (r: seq<Byte>)
    ensures |r| == k
  {
    if k == 0 then [] else Put(n / 256, k - 1) + [ToByte(n % 256)]
  }

  /** The big-endian value of a byte string. */
  function Get(b: seq<Byte>): nat {
    if b == [] then 0 else 256 * Get(b[..|b| - 1]) + b[|b| - 1] as int
  }

  lemma {:induction false} GetPut(n: nat, k: nat)
    requires n < Pow256(k)
    ensures Get(Put(n, k)) == n
  {
    if k > 0 {
      GetPut(n / 256, k - 1);
      ByteValue(n % 256);
      assert Put(n, k)[..k - 1] == Put(n / 256, k - 1);
    }
  }

  lemma {:induction false} GetBound(b: seq<Byte>)
    ensures Get(b) < Pow256(|b|)
  {
    if b != [] {
      GetBound(b[..|b| - 1]);
    }
  }

  lemma {:induction false} PutGet(b: seq<Byte>)
    ensures Put(Get(b), |b|) == b
  {
    if b != [] {
      var n := |b| - 1;
      PutGet(b[..n]);
      assert Get(b) / 256 == Get(b[..n]) && Get(b) % 256 == b[n] as int;
      ValueByte(b[n]);
      assert b == b[..n] + [b[n]];
    }
  }

  lemma Associates(a: seq<Byte>, b: seq<Byte>, c: seq<Byte>)
    ensures (a + b) + c == a + (b + c)
  {
  }

  lemma SliceBefore(a: seq<Byte>, b: seq<Byte>, i: nat, j: nat)
    requires i <= j <= |a|
    ensures (a + b)[i..j] == a[i..j]
  {
  }

  lemma MiddleSlice(a: seq<Byte>, b: seq<Byte>, c: seq<Byte>)
    ensures (a + b + c)[|a|..|a| + |b|] == b && (a + b + c)[|a| + |b|..] == c
  {
  }

  /** Where the parts of a concatenation of five are found again. */
  lemma Slices(z: seq<Byte>, l: seq<Byte>, p: seq<Byte>, c: seq<Byte>, rest: seq<Byte>)
    ensures var b, i, j, k := z + l + p + c + rest, |z| + |l|, |z| + |l| + |p|, |z| + |l| + |p| + |c|;
            && b[|z|..i] == l && b[i..j] == p && b[j..k] == c && b[k..] == rest
  {
    MiddleSlice(z + l + p, c, rest);
    Associates(z + l + p, c, rest);
    MiddleSlice(z + l, p, c + rest);
    SliceBefore(z + l + p, c + rest, |z|, |z| + |l|);
    SliceBefore(z + l, p, |z|, |z| + |l|);
  }

  lemma FirstPart(z: seq<Byte>, l: seq<Byte>, p: seq<Byte>, c: seq<Byte>, rest: seq<Byte>, i: nat)
    requires i < |z|
    ensures (z + l + p + c + rest)[i] == z[i]
  {
  }

  lemma Rejoin(b: seq<Byte>, i: nat, j: nat)
    requires i <= j <= |b|
    ensures b == b[..i] + b[i..j] + b[j..] && b[..j] == b[..i] + b[i..j]
  {
  }

  // ----- One field -----

  function GetField(b: seq<Byte>, k: nat): Read<nat> {
    if |b| < k then Short else Read(Get(b[..k]), b[k..])
  }

  lemma FieldRoundTrip(n: nat, k: nat, rest: seq<Byte>)
    requires n < Pow256(k)
    ensures GetField(Put(n, k) + rest, k) == Read(n, rest)
  {
    GetPut(n, k);
    assert (Put(n, k) + rest)[..k] == Put(n, k);
    assert (Put(n, k) + rest)[k..] == rest;
  }

  lemma FieldCanonical(b: seq<Byte>, k: nat, n: nat, rest: seq<Byte>)
    requires GetField(b, k) == Read(n, rest)
    ensures n < Pow256(k) && b == Put(n, k) + rest
  {
    PutGet(b[..k]);
    GetBound(b[..k]);
    assert b == b[..k] + b[k..];
  }

  // ----- A row of fields of given widths -----

  ghost predicate FieldsFit(widths: seq<nat>, values: seq<nat>) {
    && |widths| == |values|
    && (widths == [] || (values[0] < Pow256(widths[0]) && FieldsFit(widths[1..], values[1..])))
  }

  lemma {:induction false} FieldsFitEverywhere(widths: seq<nat>, values: seq<nat>)
    requires |widths| == |values|
    ensures FieldsFit(widths, values) <==> forall i :: 0 <= i < |widths| ==> values[i] < Pow256(widths[i])
  {
    if widths != [] {
      FieldsFitEverywhere(widths[1..], values[1..]);
      if forall i :: 0 <= i < |widths[1..]| ==> values[1..][i] < Pow256(widths[1..][i]) {
        assert forall i :: 1 <= i < |widths| ==> values[i] == values[1..][i - 1] && widths[i] == widths[1..][i - 1];
      } else {
        var i :| 0 <= i < |widths[1..]| && values[1..][i] >= Pow256(widths[1..][i]);
        assert values[i + 1] >= Pow256(widths[i + 1]);
      }
    }
  }

  function PutFields(widths: seq<nat>, values: seq<nat>): seq<Byte>
    requires |widths| == |values|
  {
    if widths == [] then [] else Put(values[0], widths[0]) + PutFields(widths[1..], values[1..])
  }

  function GetFields(b: seq<Byte>, widths: seq<nat>): Read<seq<nat>> {
    if widths == [] then Read([], b)
    else
      match GetField(b, widths[0])
      case Short => Short
      case Read(v, rest) =>
        match GetFields(rest, widths[1..])
        case Short => Short
        case Read(vs, rest') => Read([v] + vs, rest')
  }

  lemma {:induction false} FieldsRoundTrip(widths: seq<nat>, values: seq<nat>, rest: seq<Byte>)
    requires FieldsFit(widths, values)
    ensures GetFields(PutFields(widths, values) + rest, widths) == Read(values, rest)
  {
    if widths == [] {
      assert PutFields(widths, values) + rest == rest;
    } else {
      var tail := PutFields(widths[1..], values[1..]);
      Associates(Put(values[0], widths[0]), tail, rest);
      FieldRoundTrip(values[0], widths[0], tail + rest);
      FieldsRoundTrip(widths[1..], values[1..], rest);
      assert values == [values[0]] + values[1..];
    }
  }

  lemma {:induction false} FieldsCanonical(b: seq<Byte>, widths: seq<nat>, values: seq<nat>, rest: seq<Byte>)
    requires GetFields(b, widths) == Read(values, rest)
    ensures FieldsFit(widths, values) && b == PutFields(widths, values) + rest
    decreases |widths|
  {
    if widths == [] {
      assert b == [] + rest;
    } else {
      var first := GetField(b, widths[0]);
      FieldCanonical(b, widths[0], first.value, first.rest);
      FieldsCanonical(first.rest, widths[1..], values[1..], rest);
      var tail := PutFields(widths[1..], values[1..]);
      Associates(Put(values[0], widths[0]), tail, rest);
    }
  }

  // ----- Counted groups of IO elements -----

  datatype Io = Io(id: nat, value: nat)

  ghost predicate IosFit(ios: seq<Io>, size: nat) {
    ios == [] || (ios[0].id < 256 && ios[0].value < Pow256(size) && IosFit(ios[1..], size))
  }

  lemma IosFitCons(ios: seq<Io>, size: nat)
    requires ios != [] && ios[0].id < 256 && ios[0].value < Pow256(size) && IosFit(ios[1..], size)
    ensures IosFit(ios, size)
  {
  }

  function PutIos(ios: seq<Io>, size: nat): seq<Byte> {
    if ios == [] then [] else PutFields([1, size], [ios[0].id, ios[0].value]) + PutIos(ios[1..], size)
  }

  function GetIos(b: seq<Byte>, count: nat, size: nat): Read<seq<Io>>
    decreases count
  {
    if count == 0 then Read([], b)
    else
      match GetFields(b, [1, size])
      case Short => Short
      case Read(v, rest) =>
        match GetIos(rest, count - 1, size)
        case Short => Short
        case Read(ios, rest') => if |v| == 2 then Read([Io(v[0], v[1])] + ios, rest') else Short
  }

  lemma ElementFits(io: Io, size: nat)
    requires io.id < 256 && io.value < Pow256(size)
    ensures FieldsFit([1, size], [io.id, io.value])
  {
    assert Pow256(1) == 256;
  }

  lemma {:induction false} IosRoundTrip(ios: seq<Io>, size: nat, rest: seq<Byte>)
    requires IosFit(ios, size)
    ensures GetIos(PutIos(ios, size) + rest, |ios|, size) == Read(ios, rest)
  {
    if ios == [] {
      assert PutIos(ios, size) + rest == rest;
    } else {
      var head, tail := PutFields([1, size], [ios[0].id, ios[0].value]), PutIos(ios[1..], size);
      Associates(head, tail, rest);
      ElementFits(ios[0], size);
      FieldsRoundTrip([1, size], [ios[0].id, ios[0].value], tail + rest);
      IosRoundTrip(ios[1..], size, rest);
      assert ios == [ios[0]] + ios[1..];
    }
  }

  lemma {:induction false} IosCanonical(b: seq<Byte>, count: nat, size: nat, ios: seq<Io>, rest: seq<Byte>)
    requires GetIos(b, count, size) == Read(ios, rest)
    ensures |ios| == count && IosFit(ios, size) && b == PutIos(ios, size) + rest
    decreases count
  {
    if count == 0 {
      assert b == [] + rest;
    } else {
      var first := GetFields(b, [1, size]);
      FieldsCanonical(b, [1, size], first.value, first.rest);
      assert first.value == [ios[0].id, ios[0].value];
      assert Pow256(1) == 256;
      assert [1, size][0] == 1 && [1, size][1] == size;
      IosCanonical(first.rest, count - 1, size, ios[1..], rest);
      var head, tail := PutFields([1, size], first.value), PutIos(ios[1..], size);
      Associates(head, tail, rest);
    }
  }

  // A group of elements behind a one-byte count.

  ghost predicate GroupFits(ios: seq<Io>, size: nat) {
    |ios| < 256 && IosFit(ios, size)
  }

  function PutGroup(ios: seq<Io>, size: nat): seq<Byte> {
    Put(|ios|, 1) + PutIos(ios, size)
  }

  function GetGroup(b: seq<Byte>, size: nat): Read<seq<Io>> {
    match GetField(b, 1)
    case Short => Short
    case Read(count, rest) => GetIos(rest, count, size)
  }

  lemma GroupRoundTrip(ios: seq<Io>, size: nat, rest: seq<Byte>)
    requires GroupFits(ios, size)
    ensures GetGroup(PutGroup(ios, size) + rest, size) == Read(ios, rest)
  {
    Associates(Put(|ios|, 1), PutIos(ios, size), rest);
    assert Pow256(1) == 256;
    FieldRoundTrip(|ios|, 1, PutIos(ios, size) + rest);
    IosRoundTrip(ios, size, rest);
  }

  lemma GroupCanonical(b: seq<Byte>, size: nat, ios: seq<Io>, rest: seq<Byte>)
    requires GetGroup(b, size) == Read(ios, rest)
    ensures GroupFits(ios, size) && b == PutGroup(ios, size) + rest
  {
    var count := GetField(b, 1);
    assert Pow256(1) == 256;
    FieldCanonical(b, 1, count.value, count.rest);
    IosCanonical(count.rest, count.value, size, ios, rest);
    Associates(Put(|ios|, 1), PutIos(ios, size), rest);
  }

  // One group for each value size.

  ghost predicate GroupsFit(groups: seq<seq<Io>>, sizes: seq<nat>) {
    && |groups| == |sizes|
    && (groups == [] || (GroupFits(groups[0], sizes[0]) && GroupsFit(groups[1..], sizes[1..])))
  }

  function PutGroups(groups: seq<seq<Io>>, sizes: seq<nat>): seq<Byte>
    requires |groups| == |sizes|
  {
    if groups == [] then [] else PutGroup(groups[0], sizes[0]) + PutGroups(groups[1..], sizes[1..])
  }

  function GetGroups(b: seq<Byte>, sizes: seq<nat>): Read<seq<seq<Io>>>
    decreases |sizes|
  {
    if sizes == [] then Read([], b)
    else
      match GetGroup(b, sizes[0])
      case Short => Short
      case Read(ios, rest) =>
        match GetGroups(rest, sizes[1..])
        case Short => Short
        case Read(groups, rest') => Read([ios] + groups, rest')
  }

  lemma {:induction false} GroupsRoundTrip(groups: seq<seq<Io>>, sizes: seq<nat>, rest: seq<Byte>)
    requires GroupsFit(groups, sizes)
    ensures GetGroups(PutGroups(groups, sizes) + rest, sizes) == Read(groups, rest)
  {
    if groups == [] {
      assert PutGroups(groups, sizes) + rest == rest;
    } else {
      var head, tail := PutGroup(groups[0], sizes[0]), PutGroups(groups[1..], sizes[1..]);
      Associates(head, tail, rest);
      GroupRoundTrip(groups[0], sizes[0], tail + rest);
      GroupsRoundTrip(groups[1..], sizes[1..], rest);
      assert groups == [groups[0]] + groups[1..];
    }
  }

  lemma {:induction false} GroupsCanonical(b: seq<Byte>, sizes: seq<nat>, groups: seq<seq<Io>>, rest: seq<Byte>)
    requires GetGroups(b, sizes) == Read(groups, rest)
    ensures GroupsFit(groups, sizes) && b == PutGroups(groups, sizes) + rest
    decreases |sizes|
  {
    if sizes == [] {
      assert b == [] + rest;
    } else {
      var first := GetGroup(b, sizes[0]);
      GroupCanonical(b, sizes[0], first.value, first.rest);
      GroupsCanonical(first.rest, sizes[1..], groups[1..], rest);
      var head, tail := PutGroup(groups[0], sizes[0]), PutGroups(groups[1..], sizes[1..]);
      Associates(head, tail, rest);
    }
  }

  // ----- Writing -----

  lemma PutOne(n: nat)
    requires n < 256
    ensures Put(n, 1) == [ToByte(n)]
  {
    assert n / 256 == 0 && n % 256 == n;
  }

  lemma OneByte(n: nat, b: Byte)
    requires n == b as int
    ensures Put(n, 1) == [b]
  {
    ValueByte(b);
    PutOne(n);
  }

  // What a writer has appended so far, followed by what it still has to append: each
  // of the next three lemmas moves one piece from the second part to the first.

  lemma FieldOut(total: seq<Byte>, x: seq<Byte>, w: seq<nat>, v: seq<nat>, i: nat)
    requires |w| == |v| && i < |w| && total == x + PutFields(w[i..], v[i..])
    ensures total == (x + Put(v[i], w[i])) + PutFields(w[i + 1..], v[i + 1..])
  {
    assert w[i..][1..] == w[i + 1..] && v[i..][1..] == v[i + 1..];
    Associates(x, Put(v[i], w[i]), PutFields(w[i + 1..], v[i + 1..]));
  }

  lemma TwoFieldsOut(total: seq<Byte>, x: seq<Byte>, w: seq<nat>, v: seq<nat>, i: nat)
    requires |w| == |v| && i + 1 < |w| && total == x + PutFields(w[i..], v[i..])
    ensures total == x + Put(v[i], w[i]) + Put(v[i + 1], w[i + 1]) + PutFields(w[i + 2..], v[i + 2..])
  {
    FieldOut(total, x, w, v, i);
    FieldOut(total, x + Put(v[i], w[i]), w, v, i + 1);
  }

  lemma ThreeFieldsOut(total: seq<Byte>, x: seq<Byte>, w: seq<nat>, v: seq<nat>, i: nat)
    requires |w| == |v| && i + 2 < |w| && total == x + PutFields(w[i..], v[i..])
    ensures total == x + Put(v[i], w[i]) + Put(v[i + 1], w[i + 1]) + Put(v[i + 2], w[i + 2])
                     + PutFields(w[i + 3..], v[i + 3..])
  {
    FieldOut(total, x, w, v, i);
    FieldOut(total, x + Put(v[i], w[i]), w, v, i + 1);
    FieldOut(total, x + Put(v[i], w[i]) + Put(v[i + 1], w[i + 1]), w, v, i + 2);
  }

  lemma NoFields(x: seq<Byte>, widths: seq<nat>, values: seq<nat>)
    requires widths == [] && values == []
    ensures x + PutFields(widths, values) == x
  {
  }

  lemma IoOut(x: seq<Byte>, ios: seq<Io>, size: nat, i: nat)
    requires i < |ios|
    ensures x + PutIos(ios[i..], size)
         == (x + (Put(ios[i].id, 1) + Put(ios[i].value, size))) + PutIos(ios[i + 1..], size)
  {
    var w, v := [1, size], [ios[i].id, ios[i].value];
    assert ios[i..][1..] == ios[i + 1..];
    assert PutFields(w, v) == Put(v[0], 1) + Put(v[1], size) by {
      assert w[1..] == [size] && v[1..] == [v[1]];
      assert PutFields(w[1..], v[1..]) == Put(v[1], size) + [];
    }
    Associates(x, PutFields(w, v), PutIos(ios[i + 1..], size));
  }

  lemma OneElement(x: seq<Byte>, ios: seq<Io>, size: nat)
    requires |ios| == 1
    ensures x + PutIos(ios, size) == x + (Put(ios[0].id, 1) + Put(ios[0].value, size))
  {
    assert ios[0..] == ios;
    IoOut(x, ios, size, 0);
    assert PutIos(ios[1..], size) == [];
  }

  lemma TwoElements(x: seq<Byte>, ios: seq<Io>, size: nat)
    requires |ios| == 2
    ensures x + PutIos(ios, size)
         == x + (Put(ios[0].id, 1) + Put(ios[0].value, size)) + (Put(ios[1].id, 1) + Put(ios[1].value, size))
  {
    assert ios[0..] == ios;
    IoOut(x, ios, size, 0);
    OneElement(x + (Put(ios[0].id, 1) + Put(ios[0].value, size)), ios[1..], size);
  }

  lemma ThreeElements(x: seq<Byte>, ios: seq<Io>, size: nat)
    requires |ios| == 3
    ensures x + PutIos(ios, size)
         == x + (Put(ios[0].id, 1) + Put(ios[0].value, size)) + (Put(ios[1].id, 1) + Put(ios[1].value, size))
            + (Put(ios[2].id, 1) + Put(ios[2].value, size))
  {
    assert ios[0..] == ios;
    IoOut(x, ios, size, 0);
    TwoElements(x + (Put(ios[0].id, 1) + Put(ios[0].value, size)), ios[1..], size);
  }

  lemma TwoBytes(m: nat, n: nat, b: Byte, c: Byte)
    requires m == b as int && n == c as int
    ensures Put(m, 1) + Put(n, 1) == [b, c]
  {
    OneByte(m, b);
    OneByte(n, c);
  }

  lemma FourFields(w: seq<nat>, v: seq<nat>)
    requires |w| == |v| == 4
    ensures PutFields(w, v) == Put(v[0], w[0]) + Put(v[1], w[1]) + Put(v[2], w[2]) + Put(v[3], w[3])
  {
    ThreeFieldsOut(PutFields(w, v), Put(v[0], w[0]), w, v, 1);
    NoFields(Put(v[0], w[0]) + Put(v[1], w[1]) + Put(v[2], w[2]) + Put(v[3], w[3]), w[4..], v[4..]);
  }

  lemma SingleElement(x: seq<Byte>, ios: seq<Io>, size: nat, id: Byte, v: nat)
    requires ios == [Io(id as int, v)]
    ensures x + Put(|ios|, 1) + PutIos(ios, size) == x + [0x01] + ([id] + Put(v, size))
  {
    OneByte(1, 1);
    OneByte(id as int, id);
    OneElement(x + [0x01], ios, size);
  }

  lemma GroupOut(total: seq<Byte>, x: seq<Byte>, groups: seq<seq<Io>>, sizes: seq<nat>, i: nat)
    requires |groups| == |sizes| && i < |groups| && total == x + PutGroups(groups[i..], sizes[i..])
    ensures total == ((x + Put(|groups[i]|, 1)) + PutIos(groups[i], sizes[i]))
                     + PutGroups(groups[i + 1..], sizes[i + 1..])
  {
    assert groups[i..][1..] == groups[i + 1..] && sizes[i..][1..] == sizes[i + 1..];
    Associates(x, PutGroup(groups[i], sizes[i]), PutGroups(groups[i + 1..], sizes[i + 1..]));
    Associates(x, Put(|groups[i]|, 1), PutIos(groups[i], sizes[i]));
  }

  /** Overwrites `k` bytes of `b` from `at` with the big-endian value of `v`. */
  method PutUint(b: array<Byte>, at: nat, k: nat, v: nat)
    requires at + k <= b.Length
    modifies b
    ensures b[at..at + k] == Put(v, k)
    ensures b[..at] == old(b[..at]) && b[at + k..] == old(b[at + k..])
    ensures at == 0 && k == b.Length ==> b[..] == Put(v, k)
  {
    var x, i := v, k;
    while i > 0
      invariant 0 <= i <= k
      invariant Put(v, k) == Put(x, i) + b[at + i..at + k]
      invariant b[..at + i] == old(b[..at + i]) && b[at + k..] == old(b[at + k..])
    {
      i := i - 1;
      b[at + i] := ToByte(x % 256);
      x := x / 256;
    }
    assert at == 0 && k == b.Length ==> b[..] == b[at..at + k];
  }
}
