/** Networks, the currencies they define, and the host network. */
module Topology {
  import opened Channels
  import opened Symbol

  datatype NativeCurrency = NativeCurrency(symbol: CurrencyId, decimalDigits: nat)

  /** A currency is native to the network listing it, or points to a currency of another network. */
  datatype Currency =
    | Native(native: NativeCurrency)
    | Ibc(network: NetworkId, currency: CurrencyId)

  /** `order` is the order in which the currencies are iterated. */
  datatype Network = Network(order: seq<CurrencyId>, currencies: map<CurrencyId, Currency>) {
    ghost predicate Valid() {
      forall c :: c in order <==> c in currencies
    }
  }

  datatype Host = Host(name: NetworkId, currencyId: CurrencyId, native: NativeCurrency)

  datatype Topology = Topology(host: Host, networks: map<NetworkId, Network>, channels: ChannelMap)

  datatype CurrencyDefinition = CurrencyDefinition(ticker: CurrencyId, host: Symbol, dex: Symbol, decimalDigits: nat)
}
