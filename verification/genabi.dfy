/**
  The ABI generator of the front end: it looks for a DietTracker deployment on
  each network of a fixed table, takes the ABI of the first one found (or of
  the compiled artifact when none is found), and builds the table of contract
  addresses by chain id, with a zero-address placeholder for each supported
  chain that has no deployment.

  The file system is abstracted: the deployments folder is a map from network
  folder name to the fields of the deployment file found there (a missing or
  unreadable file is an absent key), and the compiled artifact is a value of
  type Artifact.
 */
module GenAbi {
  import opened Wrappers
  import Decimal

  /** The all-zero 20-byte address. */
  const ZERO_ADDRESS: string := "0x0000000000000000000000000000000000000000"

  const SEPOLIA_CHAIN_ID: nat := 11155111
  const HARDHAT_CHAIN_ID: nat := 31337
  const SEPOLIA_KEY: string := "11155111"
  const HARDHAT_KEY: string := "31337"

  /** A row of the network table: deployments folder name, chain id, name shown for the chain. */
  datatype Network = Network(chainName: string, chainId: nat, chainDisplayName: string)

  /** The network table, in the order in which it is searched. */
  const NETWORKS: seq<Network> := [
    Network("sepolia", SEPOLIA_CHAIN_ID, "sepolia"),
    Network("localhost", HARDHAT_CHAIN_ID, "hardhat"),
    Network("hardhat", HARDHAT_CHAIN_ID, "hardhat")
  ]

  /** An ABI, one JSON text per fragment; two ABIs are the same when their JSON texts are. */
  type Abi = seq<string>

  /** The fields of a deployment file the generator uses; `abi` is None when the file has no such field. */
  datatype DeploymentFile = DeploymentFile(address: string, abi: Option<Abi>)

  /** Readable deployment files, by network folder name. */
  type DeploymentsDir = map<string, DeploymentFile>

  /** A deployment as the generator keeps it: the file's fields, the table's chain id and display name. */
  datatype Deployment = Deployment(address: string, abi: Option<Abi>, chainId: nat, chainName: string)

  /** The deployment whose ABI is emitted; an `abi` of None is emitted as an object without that field. */
  datatype Primary = Primary(abi: Option<Abi>, address: string)

  /** The compiled artifact: missing, unreadable, or read with or without an `abi` field. */
  datatype Artifact = ArtifactMissing | ArtifactUnreadable | ArtifactRead(abi: Option<Abi>)

  /** One entry of the addresses object. */
  datatype AddressEntry = AddressEntry(address: string, chainId: nat, chainName: string)

  const SEPOLIA_PLACEHOLDER: AddressEntry := AddressEntry(ZERO_ADDRESS, SEPOLIA_CHAIN_ID, "sepolia")
  const HARDHAT_PLACEHOLDER: AddressEntry := AddressEntry(ZERO_ADDRESS, HARDHAT_CHAIN_ID, "hardhat")

  /** The deployment file of a network, if present and readable. */
  function ReadDeployment(dir: DeploymentsDir, network: Network): (r: Option<DeploymentFile>)
    ensures r.Some? <==> network.chainName in dir
    ensures r.Some? ==> r.value == dir[network.chainName]
  {
    if network.chainName in dir then Some(dir[network.chainName]) else None
  }

  /** A found deployment, stamped with the table's chain id and display name. */
  function Keep(network: Network, file: DeploymentFile): (d: Deployment)
    ensures d.address == file.address && d.abi == file.abi
    ensures d.chainId == network.chainId && d.chainName == network.chainDisplayName
  {
    Deployment(file.address, file.abi, network.chainId, network.chainDisplayName)
  }

  /** The deployments found on `nets`, in table order. */
  function Kept(dir: DeploymentsDir, nets: seq<Network>): (kept: seq<Deployment>)
    ensures |kept| <= |nets|
  {
    if nets == [] then []
    else
      var network := nets[|nets| - 1];
      var earlier := Kept(dir, nets[..|nets| - 1]);
      match ReadDeployment(dir, network)
      case None => earlier
      case Some(file) => earlier + [Keep(network, file)]
  }

  /** The primary deployment chosen from the kept ones: the first, if any. */
  function FirstPrimary(deployments: seq<Deployment>): (r: Option<Primary>)
    ensures r.Some? <==> deployments != []
    ensures r.Some? ==> r.value.abi == deployments[0].abi && r.value.address == deployments[0].address
  {
    if deployments == [] then None else Some(Primary(deployments[0].abi, deployments[0].address))
  }

  /** The primary used when no deployment is found: the artifact's ABI, or an empty one, at the zero address. */
  function FallbackPrimary(artifact: Artifact): (p: Primary)
    ensures p.address == ZERO_ADDRESS
    ensures p.abi == Some(if artifact.ArtifactRead? then artifact.abi.GetOr([]) else [])
  {
    match artifact
    case ArtifactRead(abi) => Primary(Some(abi.GetOr([])), ZERO_ADDRESS)
    case ArtifactUnreadable => Primary(Some([]), ZERO_ADDRESS)
    case ArtifactMissing => Primary(Some([]), ZERO_ADDRESS)
  }

  /** The key of a chain in the addresses object: `String(chainId)`. */
  function ChainKey(chainId: nat): (key: string)
    ensures Decimal.CanonicalNat(key) && Decimal.DigitsValue(key) == chainId
  {
    Decimal.NatToStringValue(chainId);
    Decimal.NatToString(chainId)
  }

  /** The entry stored for a deployment: its address, chain id and display name. */
  function EntryOf(d: Deployment): (e: AddressEntry)
    ensures e.address == d.address && e.chainId == d.chainId && e.chainName == d.chainName
  {
    AddressEntry(d.address, d.chainId, d.chainName)
  }

  /** The addresses object after the loop over the deployments: each one stored under its chain's key, later ones overwriting. */
  function AddressesOf(deployments: seq<Deployment>): (r: map<string, AddressEntry>)
    ensures |r| <= |deployments|
  {
    if deployments == [] then map[]
    else
      var last := deployments[|deployments| - 1];
      AddressesOf(deployments[..|deployments| - 1])[ChainKey(last.chainId) := EntryOf(last)]
  }

  /** The addresses object completed with a placeholder for each supported chain that is absent; present entries are kept. */
  function WithPlaceholders(addresses: map<string, AddressEntry>): (r: map<string, AddressEntry>)
    ensures r.Keys == addresses.Keys + {SEPOLIA_KEY, HARDHAT_KEY}
    ensures forall key :: key in addresses ==> r[key] == addresses[key]
    ensures SEPOLIA_KEY !in addresses ==> r[SEPOLIA_KEY] == SEPOLIA_PLACEHOLDER
    ensures HARDHAT_KEY !in addresses ==> r[HARDHAT_KEY] == HARDHAT_PLACEHOLDER
  {
    var withSepolia := if SEPOLIA_KEY in addresses then addresses else addresses[SEPOLIA_KEY := SEPOLIA_PLACEHOLDER];
    if HARDHAT_KEY in withSepolia then withSepolia else withSepolia[HARDHAT_KEY := HARDHAT_PLACEHOLDER]
  }

  /**
    The display names of the deployments whose ABI differs from the primary
    one, each a warning; a missing ABI differs from every present one and
    equals another missing one, as `JSON.stringify(undefined)` does.
   */
  function Mismatched(primaryAbi: Option<Abi>, deployments: seq<Deployment>): (names: seq<string>)
    ensures |names| <= |deployments|
    ensures forall d :: d in deployments && d.abi != primaryAbi ==> d.chainName in names
    ensures forall name :: name in names ==> exists d :: d in deployments && d.abi != primaryAbi && d.chainName == name
  {
    if deployments == [] then []
    else
      var last := deployments[|deployments| - 1];
      var earlier := deployments[..|deployments| - 1];
      assert deployments == earlier + [last];
      if last.abi != primaryAbi then Mismatched(primaryAbi, earlier) + [last.chainName]
      else Mismatched(primaryAbi, earlier)
  }

  /** The table's two chain keys are the texts "11155111" and "31337". */
  lemma SupportedChainKeys()
    ensures ChainKey(SEPOLIA_CHAIN_ID) == SEPOLIA_KEY
    ensures ChainKey(HARDHAT_CHAIN_ID) == HARDHAT_KEY
  {
    assert Decimal.NatToString(1) == "1";
    assert Decimal.NatToString(11) == "11";
    assert Decimal.NatToString(111) == "111";
    assert Decimal.NatToString(1115) == "1115";
    assert Decimal.NatToString(11155) == "11155";
    assert Decimal.NatToString(111551) == "111551";
    assert Decimal.NatToString(1115511) == "1115511";
    assert Decimal.NatToString(3) == "3";
    assert Decimal.NatToString(31) == "31";
    assert Decimal.NatToString(313) == "313";
    assert Decimal.NatToString(3133) == "3133";
  }

  /** Different chains have different keys. */
  lemma ChainKeyInjective(a: nat, b: nat)
    ensures ChainKey(a) == ChainKey(b) ==> a == b
  {
    Decimal.NatToStringValue(a);
    Decimal.NatToStringValue(b);
  }

  /** Nothing is kept exactly when no network of the table has a deployment. */
  lemma {:induction false} NothingKept(dir: DeploymentsDir, nets: seq<Network>)
    ensures Kept(dir, nets) == [] <==> forall i :: 0 <= i < |nets| ==> nets[i].chainName !in dir
  {
    if nets != [] {
      var earlier := nets[..|nets| - 1];
      NothingKept(dir, earlier);
      assert forall i :: 0 <= i < |earlier| ==> earlier[i] == nets[i];
    }
  }

  /** Every kept deployment is a table row's found file, with that row's chain id and display name. */
  lemma {:induction false} KeptFromTable(dir: DeploymentsDir, nets: seq<Network>)
    ensures forall d :: d in Kept(dir, nets) ==>
      exists n :: n in nets && n.chainName in dir && d == Keep(n, dir[n.chainName])
  {
    if nets != [] {
      var earlier := nets[..|nets| - 1];
      KeptFromTable(dir, earlier);
      assert forall n :: n in earlier ==> n in nets;
    }
  }

  /** The first kept deployment is that of the first network in table order that has one; later finds never displace it. */
  lemma {:induction false} FirstFoundFirst(dir: DeploymentsDir, nets: seq<Network>, j: nat)
    requires j < |nets| && nets[j].chainName in dir
    requires forall i :: 0 <= i < j ==> nets[i].chainName !in dir
    ensures Kept(dir, nets) != [] && Kept(dir, nets)[0] == Keep(nets[j], dir[nets[j].chainName])
  {
    var earlier := nets[..|nets| - 1];
    if j == |nets| - 1 {
      NothingKept(dir, earlier);
    } else {
      FirstFoundFirst(dir, earlier, j);
    }
  }

  /** The primary deployment of the network table: sepolia's if found, else localhost's, else hardhat's. */
  lemma PrimaryByNetwork(dir: DeploymentsDir)
    ensures FirstPrimary(Kept(dir, NETWORKS)) ==
      if "sepolia" in dir then Some(Primary(dir["sepolia"].abi, dir["sepolia"].address))
      else if "localhost" in dir then Some(Primary(dir["localhost"].abi, dir["localhost"].address))
      else if "hardhat" in dir then Some(Primary(dir["hardhat"].abi, dir["hardhat"].address))
      else None
  {
    if "sepolia" in dir {
      FirstFoundFirst(dir, NETWORKS, 0);
    } else if "localhost" in dir {
      FirstFoundFirst(dir, NETWORKS, 1);
    } else if "hardhat" in dir {
      FirstFoundFirst(dir, NETWORKS, 2);
    } else {
      NothingKept(dir, NETWORKS);
    }
  }

  /** One more network searched: its deployment, if found, is appended. */
  lemma KeptStep(dir: DeploymentsDir, nets: seq<Network>, network: Network)
    ensures Kept(dir, nets + [network]) ==
      Kept(dir, nets) + (if network.chainName in dir then [Keep(network, dir[network.chainName])] else [])
  {
    assert (nets + [network])[..|nets|] == nets;
  }

  /** One more deployment stored: its entry goes under its chain's key. */
  lemma AddressesStep(deployments: seq<Deployment>, d: Deployment)
    ensures AddressesOf(deployments + [d]) == AddressesOf(deployments)[ChainKey(d.chainId) := EntryOf(d)]
  {
    assert (deployments + [d])[..|deployments|] == deployments;
  }

  /** After the loop, exactly the chains with a deployment have a key. */
  lemma {:induction false} AddressKeys(deployments: seq<Deployment>)
    ensures AddressesOf(deployments).Keys == set d | d in deployments :: ChainKey(d.chainId)
  {
    if deployments != [] {
      var n := |deployments| - 1;
      AddressKeys(deployments[..n]);
      assert deployments == deployments[..n] + [deployments[n]];
    }
  }

  /** After the loop, a chain's key holds the entry of the last deployment on that chain. */
  lemma {:induction false} LastDeploymentWins(deployments: seq<Deployment>, i: nat)
    requires i < |deployments|
    requires forall j :: i < j < |deployments| ==> deployments[j].chainId != deployments[i].chainId
    ensures ChainKey(deployments[i].chainId) in AddressesOf(deployments)
    ensures AddressesOf(deployments)[ChainKey(deployments[i].chainId)] == EntryOf(deployments[i])
  {
    var n := |deployments| - 1;
    var last := deployments[n];
    if i < n {
      LastDeploymentWins(deployments[..n], i);
      ChainKeyInjective(last.chainId, deployments[i].chainId);
    }
  }

  /**
    The addresses object the generator emits, network by network: exactly the
    keys "11155111" and "31337"; the Sepolia deployment or a placeholder under
    the first; under the second the hardhat deployment, else the localhost
    one, else a placeholder, each named "hardhat".
   */
  lemma GeneratedAddresses(dir: DeploymentsDir)
    ensures var addresses := WithPlaceholders(AddressesOf(Kept(dir, NETWORKS)));
      && addresses.Keys == {SEPOLIA_KEY, HARDHAT_KEY}
      && addresses[SEPOLIA_KEY] ==
           (if "sepolia" in dir then AddressEntry(dir["sepolia"].address, SEPOLIA_CHAIN_ID, "sepolia")
            else SEPOLIA_PLACEHOLDER)
      && addresses[HARDHAT_KEY] ==
           (if "hardhat" in dir then AddressEntry(dir["hardhat"].address, HARDHAT_CHAIN_ID, "hardhat")
            else if "localhost" in dir then AddressEntry(dir["localhost"].address, HARDHAT_CHAIN_ID, "hardhat")
            else HARDHAT_PLACEHOLDER)
  {
    FoundAddresses(dir);
  }

  /** The addresses object after the loop over the network table, before the placeholders. */
  lemma FoundAddresses(dir: DeploymentsDir)
    ensures var addresses := AddressesOf(Kept(dir, NETWORKS));
      && addresses.Keys <= {SEPOLIA_KEY, HARDHAT_KEY}
      && (SEPOLIA_KEY in addresses <==> "sepolia" in dir)
      && ("sepolia" in dir ==> addresses[SEPOLIA_KEY] == AddressEntry(dir["sepolia"].address, SEPOLIA_CHAIN_ID, "sepolia"))
      && (HARDHAT_KEY in addresses <==> "hardhat" in dir || "localhost" in dir)
      && ("hardhat" in dir ==> addresses[HARDHAT_KEY] == AddressEntry(dir["hardhat"].address, HARDHAT_CHAIN_ID, "hardhat"))
      && ("hardhat" !in dir && "localhost" in dir ==>
            addresses[HARDHAT_KEY] == AddressEntry(dir["localhost"].address, HARDHAT_CHAIN_ID, "hardhat"))
  {
    SupportedChainKeys();
    var sepolia, localhost, hardhat := NETWORKS[0], NETWORKS[1], NETWORKS[2];
    assert [] + [sepolia] == [sepolia] && [sepolia] + [localhost] == [sepolia, localhost];
    assert [sepolia, localhost] + [hardhat] == NETWORKS;
    var a1 := AddressesOf(Kept(dir, [sepolia]));
    var a2 := AddressesOf(Kept(dir, [sepolia, localhost]));
    var a3 := AddressesOf(Kept(dir, NETWORKS));
    AddressesAfterStep(dir, [], sepolia);
    assert a1.Keys <= {SEPOLIA_KEY} && (SEPOLIA_KEY in a1 <==> "sepolia" in dir);
    AddressesAfterStep(dir, [sepolia], localhost);
    assert a2.Keys <= {SEPOLIA_KEY, HARDHAT_KEY} && (HARDHAT_KEY in a2 <==> "localhost" in dir);
    assert SEPOLIA_KEY in a2 ==> a2[SEPOLIA_KEY] == a1[SEPOLIA_KEY];
    AddressesAfterStep(dir, [sepolia, localhost], hardhat);
    assert SEPOLIA_KEY in a3 ==> a3[SEPOLIA_KEY] == a1[SEPOLIA_KEY];
    assert "hardhat" !in dir ==> a3 == a2;
  }

  /** Searching one more network adds its entry, if found, to the addresses object. */
  lemma AddressesAfterStep(dir: DeploymentsDir, nets: seq<Network>, network: Network)
    ensures var addresses := AddressesOf(Kept(dir, nets));
      AddressesOf(Kept(dir, nets + [network])) ==
        if network.chainName in dir then
          addresses[ChainKey(network.chainId) := AddressEntry(dir[network.chainName].address, network.chainId, network.chainDisplayName)]
        else addresses
  {
    KeptStep(dir, nets, network);
    if network.chainName in dir {
      AddressesStep(Kept(dir, nets), Keep(network, dir[network.chainName]));
    }
  }

  /** The loop over the network table: the found deployments in table order, and the first of them as primary. */
  method CollectDeployments(dir: DeploymentsDir) returns (deployments: seq<Deployment>, primary: Option<Primary>)
    ensures deployments == Kept(dir, NETWORKS)
    ensures primary == FirstPrimary(deployments)
  {
    deployments := [];
    primary := None;
    for i := 0 to |NETWORKS|
      invariant deployments == Kept(dir, NETWORKS[..i])
      invariant primary == FirstPrimary(deployments)
    {
      var network := NETWORKS[i];
      assert NETWORKS[..i + 1][..i] == NETWORKS[..i];
      var deployment := ReadDeployment(dir, network);
      if deployment.Some? {
        deployments := deployments + [Keep(network, deployment.value)];
        if primary.None? {
          primary := Some(Primary(deployment.value.abi, deployment.value.address));
        }
      }
    }
    assert NETWORKS[..|NETWORKS|] == NETWORKS;
  }

  /** The ABI check: one warning per deployment whose ABI differs from the primary's; the ABI emitted is not affected. */
  method AbiMismatchWarnings(primaryAbi: Option<Abi>, deployments: seq<Deployment>) returns (warnings: seq<string>)
    ensures warnings == Mismatched(primaryAbi, deployments)
  {
    warnings := [];
    for i := 0 to |deployments|
      invariant warnings == Mismatched(primaryAbi, deployments[..i])
    {
      assert deployments[..i + 1][..i] == deployments[..i];
      if deployments[i].abi != primaryAbi {
        warnings := warnings + [deployments[i].chainName];
      }
    }
    assert deployments[..|deployments|] == deployments;
  }

  /** The addresses object: every deployment under its chain's key, then the placeholders for absent supported chains. */
  method BuildAddresses(deployments: seq<Deployment>) returns (addresses: map<string, AddressEntry>)
    ensures addresses == WithPlaceholders(AddressesOf(deployments))
  {
    addresses := map[];
    for i := 0 to |deployments|
      invariant addresses == AddressesOf(deployments[..i])
    {
      assert deployments[..i + 1][..i] == deployments[..i];
      addresses := addresses[ChainKey(deployments[i].chainId) := EntryOf(deployments[i])];
    }
    assert deployments[..|deployments|] == deployments;
    if SEPOLIA_KEY !in addresses {
      addresses := addresses[SEPOLIA_KEY := SEPOLIA_PLACEHOLDER];
    }
    if HARDHAT_KEY !in addresses {
      addresses := addresses[HARDHAT_KEY := HARDHAT_PLACEHOLDER];
    }
  }

  /**
    The whole generator: the ABI emitted is the primary deployment's (the
    first found in table order, else the artifact's or an empty one), the
    warnings name the deployments whose ABI differs, and the addresses object
    has exactly the two supported chains. An ABI of None is emitted as an
    object without an `abi` field.
   */
  method GenerateAbi(dir: DeploymentsDir, artifact: Artifact)
    returns (abi: Option<Abi>, warnings: seq<string>, addresses: map<string, AddressEntry>)
    ensures var kept := Kept(dir, NETWORKS);
      abi == (if kept != [] then kept[0].abi else FallbackPrimary(artifact).abi)
    ensures warnings == Mismatched(abi, Kept(dir, NETWORKS))
    ensures addresses == WithPlaceholders(AddressesOf(Kept(dir, NETWORKS)))
    ensures addresses.Keys == {SEPOLIA_KEY, HARDHAT_KEY}
  {
    var deployments, primary := CollectDeployments(dir);
    var chosen := if primary.Some? then primary.value else FallbackPrimary(artifact);
    warnings := AbiMismatchWarnings(chosen.abi, deployments);
    addresses := BuildAddresses(deployments);
    abi := chosen.abi;
    GeneratedAddresses(dir);
  }
}
