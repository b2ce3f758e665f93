// R2CPSerializer.cpp: the sizes computed before a packet is written, in 32 bits.
module R2CPSizes {
  import opened Bytes
  import opened R2CPDictionary
  import opened R2CPSpec
  import opened R2CPFormat
  import opened R2CPTheorems

  function DataSize(es: seq<Entry>): nat
    decreases |es|
  {
    if es == [] then 0 else |es[0].data| + DataSize(es[1..])
  }

  lemma {:induction false} DataSizeSnoc(es: seq<Entry>, e: Entry)
    ensures DataSize(es + [e]) == DataSize(es) + |e.data|
    decreases |es|
  {
    if es != [] {
      DataSizeSnoc(es[1..], e);
      assert (es + [e])[1..] == es[1..] + [e];
    }
  }

  /** The length of a list on the wire: a count, eight bytes an entry, and the data. */
  lemma {:induction false} ListSize(es: seq<Entry>)
    requires Sized(es)
    ensures |EntriesBytes(es)| == 8 * |es| + DataSize(es)
    ensures |ListBytes(es)| == 4 + 8 * |es| + DataSize(es)
    decreases |es|
  {
    hide Word32;
    if es != [] {
      SizedTail(es);
      ListSize(es[1..]);
    }
  }

  lemma WrapAdd(a: nat, b: nat)
    ensures Wrap(Wrap(a) + b) == Wrap(a + b) && Wrap(a + Wrap(b)) == Wrap(a + b)
  {
    hide Wrap;
    WholePart(a);
    WholePart(b);
    SameWrap(Wrap(a) + b, a + b, -(a / TWO_32));
    SameWrap(a + Wrap(b), a + b, -(b / TWO_32));
  }

  lemma WholePart(a: nat)
    ensures a == Wrap(a) + a / TWO_32 * TWO_32
  {
  }

  lemma SameWrap(a: nat, b: nat, k: int)
    requires a == b + k * TWO_32
    ensures Wrap(a) == Wrap(b)
  {
  }

  /** precomputecommandcontentsize: the length of the content, modulo 2^32. */
  method PrecomputeCommandContentSize(ps: seq<Entry>) returns (size: uint32)
    ensures size == Wrap(4 + 8 * |ps| + DataSize(ps))
    ensures Sized(ps) && |ListBytes(ps)| < TWO_32 ==> size == |ListBytes(ps)|
  {
    hide DataSize, Wrap, EntriesBytes;
    var n := |ps| % TWO_32;
    size := (4 + n * 8) % TWO_32;
    StartSize(|ps|, ps[..0]);
    for i: int := 0 to |ps|
      invariant size == Wrap(4 + 8 * |ps| + DataSize(ps[..i]))
    {
      DataSizeSnoc(ps[..i], ps[i]);
      assert ps[..i] + [ps[i]] == ps[..i + 1];
      AddSize(size, 4 + 8 * |ps| + DataSize(ps[..i]), |ps[i].data|);
      size := (size + |ps[i].data| % TWO_32) % TWO_32;
    }
    assert ps[..|ps|] == ps;
    if Sized(ps) {
      ListSize(ps);
      NoWrap(|ListBytes(ps)|);
    }
  }

  lemma StartSize(n: nat, none: seq<Entry>)
    requires none == []
    ensures (4 + n % TWO_32 * 8) % TWO_32 == Wrap(4 + 8 * n + DataSize(none))
  {
  }

  lemma AddSize(size: nat, total: nat, n: nat)
    requires size == Wrap(total)
    ensures (size + n % TWO_32) % TWO_32 == Wrap(total + n)
  {
    WrapAdd(total, n);
    WrapAdd(Wrap(total), n);
  }

  /** How many commands should have parameters but have none. */
  function Bare(cs: seq<Command>): nat
    decreases |cs|
  {
    if cs == [] then 0
    else Bare(cs[..|cs| - 1]) + if IsBare(cs[|cs| - 1]) then 1 else 0
  }

  /** The dictionary gives the command parameters, and it has none. */
  predicate IsBare(c: Command) { c.parameters == [] && GetContentType(c.code) == ParameterizedContent }

  lemma {:induction false} NoneBare(cs: seq<Command>)
    ensures Bare(cs) == 0 <==> forall i :: 0 <= i < |cs| ==> !IsBare(cs[i])
    decreases |cs|
  {
    if cs != [] {
      NoneBare(cs[..|cs| - 1]);
      assert forall i :: 0 <= i < |cs| - 1 ==> cs[i] == cs[..|cs| - 1][i];
    }
  }

  /** A bare command takes four bytes of data, its parameter count. */
  lemma {:induction false} BareBound(cs: seq<Command>, i: nat)
    requires AllConforming(cs) && i <= |cs|
    ensures 4 * Bare(cs[..i]) <= DataSize(ToEntries(cs)[..i])
    decreases i
  {
    hide DataSize, Conforming, Bare, ToEntry;
    if i == 0 {
      NoneBare(cs[..0]);
    } else {
      var es := ToEntries(cs);
      BareBound(cs, i - 1);
      BareSnoc(cs, i - 1);
      DataSizeSnoc(es[..i - 1], es[i - 1]);
      assert es[..i - 1] + [es[i - 1]] == es[..i];
      ConformingSize(cs[i - 1]);
    }
  }

  /** Sizes of 32 bits that agree up to a wrap-around. */
  lemma SizeIsShort(size: uint32, bare: nat, length: nat)
    requires Wrap(size + bare) == Wrap(length) && bare <= length
    ensures length < TWO_32 ==> size == length - bare
  {
    if length < TWO_32 {
      var k := (size + bare) / TWO_32;
      assert size + bare == length + k * TWO_32;
    }
  }

  /** precomputer2cppacketsize: for commands of the dictionary, the length of the body, but
      for the parameter count of each bare command; so the length itself exactly when it
      has 32 bits and no command is bare. */
  method PrecomputePacketSize(cs: seq<Command>) returns (size: uint32)
    ensures AllConforming(cs) ==> Wrap(size + 4 * Bare(cs)) == Wrap(|ListBytes(ToEntries(cs))|)
    ensures AllConforming(cs) && |ListBytes(ToEntries(cs))| < TWO_32 ==>
              size == |ListBytes(ToEntries(cs))| - 4 * Bare(cs)
    ensures AllConforming(cs) ==>
              (size == |ListBytes(ToEntries(cs))| <==>
               |ListBytes(ToEntries(cs))| < TWO_32 && forall i :: 0 <= i < |cs| ==> !IsBare(cs[i]))
  {
    hide DataSize, Wrap, EntriesBytes, Conforming, Bare, ListBytes, IsBare, Sized, ToEntry;
    ghost var es := if AllConforming(cs) then ToEntries(cs) else [];
    size := (4 + |cs| % TWO_32 * 8) % TWO_32;
    StartSize(|cs|, es[..0]);
    NoneBare(cs[..0]);
    NoWrap(size);
    for i: int := 0 to |cs|
      invariant es != [] ==> Wrap(size + 4 * Bare(cs[..i])) == Wrap(4 + 8 * |cs| + DataSize(es[..i]))
      invariant i == 0 ==> size == Wrap(4 + 8 * |cs| + DataSize([]))
    {
      var ps := cs[i].parameters;
      if es != [] {
        EntrySize(cs, es, i, size);
      }
      if |ps| > 0 {
        if |ps| == 1 && ps[0].code == NOPARAMETERS {
          size := (size + |ps[0].data| % TWO_32) % TWO_32;
        } else {
          var n := PrecomputeCommandContentSize(ps);
          size := (size + n) % TWO_32;
        }
      }
    }
    if AllConforming(cs) {
      assert es[..|es|] == es && cs[..|cs|] == cs;
      SizeConcluded(cs, size);
    }
  }

  lemma SizeConcluded(cs: seq<Command>, size: uint32)
    requires AllConforming(cs)
    requires cs != [] ==> Wrap(size + 4 * Bare(cs)) == Wrap(4 + 8 * |cs| + DataSize(ToEntries(cs)))
    requires cs == [] ==> size == Wrap(4 + 8 * |cs| + DataSize([]))
    ensures var length := |ListBytes(ToEntries(cs))|;
      && Wrap(size + 4 * Bare(cs)) == Wrap(length)
      && (length < TWO_32 ==> size == length - 4 * Bare(cs))
      && (size == length <==> length < TWO_32 && forall i :: 0 <= i < |cs| ==> !IsBare(cs[i]))
  {
    hide DataSize, EntriesBytes, Conforming, Bare, ListBytes, IsBare, Wrap;
    var es := ToEntries(cs);
    ListSize(es);
    BareBound(cs, |cs|);
    assert es[..|es|] == es && cs[..|cs|] == cs;
    NoneBare(cs);
    NoWrap(size);
    SizeIsShort(size, 4 * Bare(cs), |ListBytes(es)|);
  }

  /** One bare command: twelve bytes are computed, and the body has sixteen. */
  method MiscountedPacket() returns (cs: seq<Command>, size: uint32)
    ensures AllConforming(cs) && |ListBytes(ToEntries(cs))| == 16 && size == 12
  {
    cs := [Command(MOTORDUTYCYCLE, [])];
    BareBody(cs[0]);
    size := PrecomputePacketSize(cs);
  }

  lemma BareBody(c: Command)
    requires c == Command(MOTORDUTYCYCLE, [])
    ensures AllConforming([c]) && |ListBytes(ToEntries([c]))| == 16 && Bare([c]) == 1
  {
    hide Word32;
    NoEntries();
    var es := ToEntries([c]);
    ListSize(es);
    assert es == [ToEntry(c)] && es[1..] == [];
    BareSnoc([c], 0);
    assert [c][..1] == [c] && [c][..0] == [];
  }

  lemma EntrySize(cs: seq<Command>, es: seq<Entry>, i: nat, size: uint32)
    requires AllConforming(cs) && es == ToEntries(cs) && i < |cs|
    requires Wrap(size + 4 * Bare(cs[..i])) == Wrap(4 + 8 * |cs| + DataSize(es[..i]))
    ensures var ps, bare, total := cs[i].parameters, 4 * Bare(cs[..i + 1]), Wrap(4 + 8 * |cs| + DataSize(es[..i + 1]));
      if ps == [] then Wrap(size + bare) == total
      else if |ps| == 1 && ps[0].code == NOPARAMETERS then Wrap((size + |ps[0].data| % TWO_32) % TWO_32 + bare) == total
      else Sized(ps) && |ListBytes(ps)| < TWO_32 && Wrap((size + |ListBytes(ps)|) % TWO_32 + bare) == total
  {
    hide DataSize, Wrap, EntriesBytes, Conforming, Bare, Sized, ListBytes, ToEntry;
    DataSizeSnoc(es[..i], es[i]);
    assert es[..i] + [es[i]] == es[..i + 1];
    BareSnoc(cs, i);
    ConformingSize(cs[i]);
    AddBoth(size, 4 * Bare(cs[..i]), 4 + 8 * |es| + DataSize(es[..i]), |es[i].data|);
    NoWrap(|es[i].data|);
  }

  lemma BareSnoc(cs: seq<Command>, i: nat)
    requires i < |cs|
    ensures Bare(cs[..i + 1]) ==
            Bare(cs[..i]) + if IsBare(cs[i]) then 1 else 0
  {
    assert cs[..i + 1][..i] == cs[..i];
  }

  lemma AddBoth(size: nat, bare: nat, total: nat, n: nat)
    requires Wrap(size + bare) == Wrap(total)
    ensures Wrap((size + n % TWO_32) % TWO_32 + bare) == Wrap(total + n)
    ensures Wrap(size + (bare + n)) == Wrap(total + n)
  {
    hide Wrap;
    AddSize(Wrap(size), size, n);
    AddMore(size, n, bare);
    AddSize(Wrap(total), total, n);
    AddSize(Wrap(size + bare), size + bare, n);
  }

  lemma AddMore(size: nat, n: nat, bare: nat)
    ensures Wrap((size + n % TWO_32) % TWO_32 + bare) == Wrap(size + bare + n)
  {
    WrapAdd(size, n);
    WrapAdd(size + n, bare);
  }

  lemma ConformingSize(c: Command)
    requires Conforming(c)
    ensures var ps, n := c.parameters, |ToEntry(c).data|;
      if ps == [] then n == if GetContentType(c.code) == ParameterizedContent then 4 else 0
      else if |ps| == 1 && ps[0].code == NOPARAMETERS then n == |ps[0].data|
      else Sized(ps) && |ListBytes(ps)| < TWO_32 && n == |ListBytes(ps)|
  {
    hide EntriesBytes, Word32, Sized;
    NoEntries();
  }
}
