/** The symbols currencies are known by, and the builder of their denomination paths. */
module Symbol {
  import opened Sequences
  import opened Channels

  datatype CurrencyId = CurrencyId(name: string)

  datatype Symbol = Symbol(path: string, symbol: string)

  const PORT := "transfer/"

  /** One step of a path, see section 'Data Structures' of ICS 20 (Fungible Token Transfer). */
  ghost function Segment(channel: ChannelId): string {
    PORT + channel.name + "/"
  }

  ghost function Prefix(hops: seq<ChannelId>): string {
    if hops == [] then "" else Prefix(hops[..|hops| - 1]) + Segment(hops[|hops| - 1])
  }

  /** The path of a currency that came over the channels `hops`. */
  ghost function Denom(hops: seq<ChannelId>, symbol: CurrencyId): string {
    Prefix(hops) + symbol.name
  }

  ghost function SymbolOf(hops: seq<ChannelId>, symbol: CurrencyId, digest: string -> string): Symbol {
    Symbol(Denom(hops, symbol), if hops == [] then symbol.name else digest(Denom(hops, symbol)))
  }

  /** Without a channel the symbol is the bare one. */
  datatype Inner = Bare | Prefixed(path: string)

  class Builder {
    var inner: Inner
    ghost var added: seq<ChannelId>

    ghost predicate Valid()
      reads this
    {
      inner == if added == [] then Bare else Prefixed(Prefix(added))
    }

    constructor ()
      ensures Valid() && added == []
    {
      inner, added := Bare, [];
    }

    method AddChannel(channel: ChannelId)
      requires Valid()
      modifies this
      ensures Valid() && added == old(added) + [channel]
    {
      var path := if inner.Bare? then "" else inner.path;
      path := path + PORT;
      path := path + channel.name;
      path := path + "/";
      inner, added := Prefixed(path), added + [channel];
    }

    method AddSymbol(symbol: CurrencyId, digest: string -> string) returns (s: Symbol)
      requires Valid()
      ensures s.path == Denom(added, symbol) && s.symbol == if added == [] then symbol.name else digest(s.path)
      ensures s == SymbolOf(added, symbol, digest)
    {
      match inner
      case Bare =>
        assert Denom(added, symbol) == symbol.name;
        s := Symbol(symbol.name, symbol.name);
      case Prefixed(path) =>
        path := path + symbol.name;
        s := Symbol(path, digest(path));
    }
  }

  ghost predicate SlashFree(hops: seq<ChannelId>) {
    forall i :: 0 <= i < |hops| ==> '/' !in hops[i].name
  }

  lemma {:induction false} PrefixHead(hops: seq<ChannelId>)
    requires hops != []
    ensures Prefix(hops) == Segment(hops[0]) + Prefix(hops[1..])
  {
    var init, last := hops[..|hops| - 1], Segment(hops[|hops| - 1]);
    if init == [] {
      assert Prefix(init) == "" && Prefix(hops[1..]) == "";
    } else {
      PrefixHead(init);
      assert init[1..] == hops[1..][..|hops| - 2];
      assert Prefix(hops[1..]) == Prefix(init[1..]) + last;
      ConcatAssoc(Segment(hops[0]), Prefix(init[1..]), last);
    }
  }

  lemma DenomHead(hops: seq<ChannelId>, symbol: CurrencyId)
    requires hops != []
    ensures Denom(hops, symbol) == Segment(hops[0]) + Denom(hops[1..], symbol)
    ensures PORT <= Denom(hops, symbol)
  {
    PrefixHead(hops);
    ConcatAssoc(Segment(hops[0]), Prefix(hops[1..]), symbol.name);
  }

  lemma NoSegments(symbol: CurrencyId)
    ensures Denom([], symbol) == symbol.name
  {
    assert "" + symbol.name == symbol.name;
  }

  /** The format of a path: each channel with the port in front of it, the outermost first, then the symbol. */
  lemma DenomFormat(hops: seq<ChannelId>, symbol: CurrencyId)
    ensures Denom([], symbol) == symbol.name
    ensures hops != [] ==> Denom(hops, symbol) == "transfer/" + hops[0].name + "/" + Denom(hops[1..], symbol)
  {
    NoSegments(symbol);
    if hops != [] {
      DenomHead(hops, symbol);
    }
  }

  lemma SlashAt(a: string, x: string)
    requires '/' !in a
    ensures var s := PORT + a + "/" + x;
      && s[|PORT| + |a|] == '/' && s[|PORT|..|PORT| + |a|] == a && s[|PORT| + |a| + 1..] == x
      && forall i :: |PORT| <= i < |PORT| + |a| ==> s[i] != '/'
  {}

  /** A path tells the channels and the base currency apart: two currencies share a path only if they
      are the same currency that came over the same channels. */
  lemma {:induction false} DenomInjective(h1: seq<ChannelId>, s1: CurrencyId, h2: seq<ChannelId>, s2: CurrencyId)
    requires SlashFree(h1) && SlashFree(h2)
    requires !(PORT <= s1.name) && !(PORT <= s2.name)
    requires Denom(h1, s1) == Denom(h2, s2)
    ensures h1 == h2 && s1 == s2
    decreases |h1|
  {
    hide Denom;
    NoSegments(s1);
    NoSegments(s2);
    if h1 != [] {
      DenomHead(h1, s1);
    }
    if h2 != [] {
      DenomHead(h2, s2);
    }
    assert h1 == [] <==> h2 == [];
    if h1 != [] {
      SlashAt(h1[0].name, Denom(h1[1..], s1));
      SlashAt(h2[0].name, Denom(h2[1..], s2));
      assert |h1[0].name| == |h2[0].name|;
      DenomInjective(h1[1..], s1, h2[1..], s2);
      assert h1 == [h1[0]] + h1[1..] && h2 == [h2[0]] + h2[1..];
    }
  }
}
