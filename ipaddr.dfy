/**
 * `isValidIP`: is a string, up to its first '/', an address of the requested
 * family? The parsing itself (`net.ParseIP` and `To4`) belongs to Go's
 * standard library and is a parameter of the model.
 */
module IPAddr {
  import opened Text

  /**
   * What `net.ParseIP` makes of a text: not an address at all, or an address
   * for which `To4()` is non-nil (`has4`) or nil.
   */
  datatype IPForm = NotAnIP | Parsed(has4: bool)

  type IPParser = string -> IPForm

  /**
   * Version 4 asks for an address with a 4-byte form; any other version asks
   * for one without it whose text also holds a ':'.
   */
  predicate IsValidIP(parseIP: IPParser, ip: string, version: int): (valid: bool)
    ensures valid ==> parseIP(BeforeSlash(ip)) == Parsed(version == 4)
    ensures valid && version != 4 ==> ':' in BeforeSlash(ip)
    ensures version == 4 && parseIP(BeforeSlash(ip)) == Parsed(true) ==> valid
    ensures version != 4 && parseIP(BeforeSlash(ip)) == Parsed(false) && ':' in BeforeSlash(ip) ==> valid
  {
    var addr := BeforeSlash(ip);
    match parseIP(addr)
    case NotAnIP => false
    case Parsed(has4) => if version == 4 then has4 else !has4 && ':' in addr
  }

  /** No text is valid for both families. */
  lemma FamiliesExclusive(parseIP: IPParser, ip: string)
    ensures !(IsValidIP(parseIP, ip, 4) && IsValidIP(parseIP, ip, 6))
  {
  }

  /** A valid IPv6 entry has a ':' before its first '/'. */
  lemma IPv6HasColon(parseIP: IPParser, ip: string)
    requires IsValidIP(parseIP, ip, 6)
    ensures ':' in BeforeSlash(ip)
  {
  }

  /** A prefix length after '/' is never examined: `a/b` is valid exactly when `a` is. */
  lemma PrefixLengthIgnored(parseIP: IPParser, a: string, b: string, version: int)
    requires '/' !in a
    ensures IsValidIP(parseIP, a + "/" + b, version) == IsValidIP(parseIP, a, version)
  {
    BeforeSlashCut(a, b);
    BeforeSlashWhole(a);
  }

  /**
   * The classification examples, for a parser that reads "203.0.113.5" as an
   * address with a 4-byte form and "2001:db8::1" as one without.
   */
  lemma IPv4Examples(parseIP: IPParser)
    requires parseIP("203.0.113.5") == Parsed(true)
    ensures IsValidIP(parseIP, "203.0.113.5", 4) && !IsValidIP(parseIP, "203.0.113.5", 6)
  {
    BeforeSlashWhole("203.0.113.5");
  }

  /** The prefix length of a network entry is ignored. */
  lemma IPv4NetworkExample(parseIP: IPParser)
    requires parseIP("203.0.113.5") == Parsed(true)
    ensures IsValidIP(parseIP, "203.0.113.5/24", 4)
  {
    assert "203.0.113.5/24" == "203.0.113.5" + "/" + "24";
    BeforeSlashCut("203.0.113.5", "24");
  }

  lemma IPv6Examples(parseIP: IPParser)
    requires parseIP("2001:db8::1") == Parsed(false)
    ensures IsValidIP(parseIP, "2001:db8::1", 6) && !IsValidIP(parseIP, "2001:db8::1", 4)
  {
    BeforeSlashWhole("2001:db8::1");
  }

  lemma NotAnIPExample(parseIP: IPParser)
    requires parseIP("not-an-ip") == NotAnIP
    ensures !IsValidIP(parseIP, "not-an-ip", 4) && !IsValidIP(parseIP, "not-an-ip", 6)
  {
    BeforeSlashWhole("not-an-ip");
  }
}
