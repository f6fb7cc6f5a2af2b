/** The allow-list of authorized networks (`listaRedesSeguras`) and the
    validator's linear scan over it. */
module AllowList {

  /** Longest SSID in octets, as in section 9.4.2.2 of IEEE 802.11-2016; the
      monitor copies it into a 33-byte buffer, 32 octets and the terminator. */
  const MaxSsidLength: nat := 32

  /** An SSID as the monitor captures it with `strcpy`: a NUL-terminated C
      string of at most 32 characters, one character per octet, so it holds
      no NUL of its own. For two
      such strings `strcmp(a, b) == 0` holds exactly when `a == b`. */
  type Ssid = s: string | |s| <= MaxSsidLength && '\0' !in s

  /** The fixed allow-list, case-sensitive, in its declared order. */
  const SafeNetworks: seq<Ssid> := [
    "Rede_Segura_1",
    "Rede_Segura_2",
    "REDE_DIRETORIA_TESTE",
    "Laboratorio_Dev",
    "Home_Office_Admin"
  ]

  /** `numRedesSeguras`: how many entries the scan visits. */
  const NumSafeNetworks: nat := 5

  /** Whole-string membership: some entry of `list` equals `s` exactly. */
  predicate Listed(list: seq<Ssid>, s: string) {
    exists i | 0 <= i < |list| :: list[i] == s
  }

  /** The `for` loop of the validator: compares `ssid` with the entries in
      order and stops at the first one that is equal. The ghost `compared`
      counts the comparisons made, to state where the loop stopped. */
  method Scan(list: seq<Ssid>, count: nat, ssid: Ssid) returns (safe: bool, ghost compared: nat)
    requires count <= |list|
    ensures safe == Listed(list[..count], ssid)
    ensures compared <= count
    ensures safe ==> 0 < compared && list[compared - 1] == ssid
    ensures safe ==> forall j | 0 <= j < compared - 1 :: list[j] != ssid
    ensures !safe ==> compared == count
  {
    safe, compared := false, 0;
    for i := 0 to count
      invariant !safe && compared == i
      invariant forall j | 0 <= j < i :: list[j] != ssid
    {
      compared := compared + 1;
      if list[i] == ssid {
        safe := true;
        break;
      }
    }
    assert safe ==> list[..count][compared - 1] == ssid;
  }

  /** The scan bound covers the whole declared list. */
  lemma CountCoversList()
    ensures NumSafeNetworks == |SafeNetworks|
    ensures SafeNetworks[..NumSafeNetworks] == SafeNetworks
  {
  }

  /** Exact whole-string matching: a listed name is accepted, while a
      different letter case, a proper prefix and the network the station
      is configured to join are not. */
  lemma ExactMatchOnly()
    ensures Listed(SafeNetworks, "Laboratorio_Dev")
    ensures !Listed(SafeNetworks, "laboratorio_dev")
    ensures !Listed(SafeNetworks, "Rede_Segura")
    ensures !Listed(SafeNetworks, "REDE_DE_TESTE_INSEGURA")
  {
    assert SafeNetworks[3] == "Laboratorio_Dev";
  }
}
