/**
 * The `--network` option of the CLI (`cli/src/instructions/deploy_airdrop.rs`): a name,
 * matched without regard to case, picks one of four clusters.
 */
module Networks {
  import opened Wrappers

  datatype Network = Devnet | Testnet | Mainnet | Localnet

  /** The clusters the RPC client can be pointed at (the four the CLI uses). */
  datatype Cluster = DevnetCluster | TestnetCluster | MainnetCluster | LocalnetCluster

  datatype NetworkError = InvalidNetwork(text: string)

  /**
   * Lower case for one character. Only ASCII letters are changed: among the characters whose
   * lower case is an ASCII letter, the only other one is the Kelvin sign (to `k`), and no
   * network name contains `k`, so the names match exactly the strings Unicode lower-casing
   * would match.
   */
  function LowerChar(c: char): char
  {
    if 'A' <= c <= 'Z' then (c as int + 32) as char else c
  }

  function Lower(s: string): (r: string)
    ensures |r| == |s|
    ensures forall i :: 0 <= i < |s| ==> r[i] == LowerChar(s[i])
  {
    seq(|s|, i requires 0 <= i < |s| => LowerChar(s[i]))
  }

  /** `Network::from_str`: the lower-cased text must be a name or one of the two aliases. */
  function FromStr(s: string): Result<Network, NetworkError>
  {
    match Lower(s)
    case "devnet" => Ok(Devnet)
    case "testnet" => Ok(Testnet)
    case "mainnet" => Ok(Mainnet)
    case "mainnet-beta" => Ok(Mainnet)
    case "localnet" => Ok(Localnet)
    case "localhost" => Ok(Localnet)
    case _ => Err(InvalidNetwork(s))
  }

  /** `Network::name`. */
  function Name(n: Network): string
  {
    match n
    case Devnet => "devnet"
    case Testnet => "testnet"
    case Mainnet => "mainnet"
    case Localnet => "localnet"
  }

  /** `Network::to_cluster`. */
  function ToCluster(n: Network): Cluster
  {
    match n
    case Devnet => DevnetCluster
    case Testnet => TestnetCluster
    case Mainnet => MainnetCluster
    case Localnet => LocalnetCluster
  }

  /** The alias a network is also known by, if any. */
  function Alias(n: Network): Option<string>
  {
    match n
    case Mainnet => Some("mainnet-beta")
    case Localnet => Some("localhost")
    case _ => None
  }

  /** Lower-casing twice changes nothing more. */
  lemma LowerIdempotent(s: string)
    ensures Lower(Lower(s)) == Lower(s)
  {
    assert forall i :: 0 <= i < |s| ==> Lower(Lower(s))[i] == Lower(s)[i];
  }

  /** Parsing ignores case: two strings that lower-case alike parse alike, up to the echoed text of an error. */
  lemma FromStrIgnoresCase(s: string, t: string)
    requires Lower(s) == Lower(t)
    ensures FromStr(s).Ok? <==> FromStr(t).Ok?
    ensures FromStr(s).Ok? ==> FromStr(s) == FromStr(t)
  {
  }

  /**
   * The accepted strings are exactly the names and the aliases, in any case: `s` parses to
   * `n` if and only if its lower-cased form is `n`'s name or `n`'s alias.
   */
  lemma FromStrAccepts(s: string, n: Network)
    ensures FromStr(s) == Ok(n) <==> Lower(s) == Name(n) || Alias(n) == Some(Lower(s))
  {
  }

  /** Every other string is an error that echoes it. */
  lemma FromStrRejects(s: string)
    requires forall n: Network :: Lower(s) != Name(n) && Alias(n) != Some(Lower(s))
    ensures FromStr(s) == Err(InvalidNetwork(s))
  {
    assert Lower(s) != Name(Devnet) && Lower(s) != Name(Testnet);
    assert Lower(s) != Name(Mainnet) && Alias(Mainnet) != Some(Lower(s));
    assert Lower(s) != Name(Localnet) && Alias(Localnet) != Some(Lower(s));
  }

  /** Names are already lower case, so they parse back to their network. */
  lemma NameRoundTrip(n: Network)
    ensures Lower(Name(n)) == Name(n)
    ensures FromStr(Name(n)) == Ok(n)
  {
    assert Lower(Name(n)) == Name(n);
  }

  /** The aliases in any case: "MAINNET-BETA" is Mainnet and "LocalHost" is Localnet. */
  lemma AliasesParse()
    ensures FromStr("MAINNET-BETA") == Ok(Mainnet)
    ensures FromStr("LocalHost") == Ok(Localnet)
  {
    assert Lower("MAINNET-BETA") == "mainnet-beta";
    assert Lower("LocalHost") == "localhost";
  }

  /** Each network has its own cluster. */
  lemma ToClusterInjective(n: Network, m: Network)
    requires ToCluster(n) == ToCluster(m)
    ensures n == m
  {
  }
}
