/**
  VPP ACL entries, first-match evaluation, and the list the agent pushes for a family: its
  deny entries followed by a permit for everything else of that family.
 */
module Acl {
  import opened Arith
  import opened FlowSpec

  /** One ACL entry. The port fields carry ICMP type and code for ICMP packets. */
  datatype ACLRule = ACLRule(
    isIPv6: bool, permit: bool, src: Prefix, dst: Prefix, proto: Byte,
    srcFirst: Port, srcLast: Port, dstFirst: Port, dstLast: Port,
    tcpMask: Octet, tcpValue: Octet)

  predicate HeaderMatches(r: ACLRule, p: Packet)
  {
    && Contains(r.src, p.src)
    && Contains(r.dst, p.dst)
    && (r.proto == 0 || r.proto == p.proto)
    && (CarriesPorts(p) ==>
          r.srcFirst <= p.srcPort <= r.srcLast && r.dstFirst <= p.dstPort <= r.dstLast)
    && (CarriesIcmp(p) ==>
          r.srcFirst <= p.icmpType <= r.srcLast && r.dstFirst <= p.icmpCode <= r.dstLast)
  }

  predicate FlagsMatch(r: ACLRule, p: Packet)
  {
    p.proto == TCP ==> p.tcpFlags * r.tcpMask == r.tcpValue
  }

  predicate EntryMatches(r: ACLRule, p: Packet)
  {
    HeaderMatches(r, p) && FlagsMatch(r, p)
  }

  datatype Verdict = Permit | Deny

  /** The verdict of the first matching entry of one ACL. */
  function FirstMatch(acl: seq<ACLRule>, p: Packet): (v: Option<Verdict>)
  {
    if acl == [] then None
    else if EntryMatches(acl[0], p) then Some(if acl[0].permit then Permit else Deny)
    else FirstMatch(acl[1..], p)
  }

  function PermitAny(f: Family): (r: ACLRule)
  {
    ACLRule(f.IPv6?, true, DefaultPrefix(f), DefaultPrefix(f), 0, 0, 65535, 0, 65535, {}, {})
  }

  function BuildACL(f: Family, rules: seq<ACLRule>): (acl: seq<ACLRule>)
  {
    rules + [PermitAny(f)]
  }

  /** A deny entry of family `f`: what the translator produces. */
  predicate DenyOf(f: Family, r: ACLRule)
  {
    !r.permit && r.isIPv6 == f.IPv6? && r.src.addr.family == f && r.dst.addr.family == f
  }

  lemma DefaultContains(f: Family, a: Addr)
    ensures Contains(DefaultPrefix(f), a) <==> a.family == f
  {
    LeadingBound(a, 0);
    LeadingBound(RawAddr(a.family, 0), 0);
  }

  lemma PermitAnyMatches(f: Family, p: Packet)
    ensures EntryMatches(PermitAny(f), p) <==> FamilyOf(p) == f
  {
    DefaultContains(f, p.src);
    DefaultContains(f, p.dst);
  }

  /** The pushed list is a blocklist: it denies exactly what some deny entry matches, permits
      the rest of its family and says nothing about the other family, in whatever order the
      deny entries stand. */
  lemma {:induction false} Blocklist(f: Family, rules: seq<ACLRule>, p: Packet)
    requires forall r | r in rules :: DenyOf(f, r)
    ensures FirstMatch(BuildACL(f, rules), p) ==
            if FamilyOf(p) != f then None
            else if exists r | r in rules :: EntryMatches(r, p) then Some(Deny)
            else Some(Permit)
  {
    var acl := BuildACL(f, rules);
    if rules == [] {
      PermitAnyMatches(f, p);
      assert acl[1..] == [];
    } else {
      assert acl[0] == rules[0] && acl[1..] == BuildACL(f, rules[1..]);
      assert DenyOf(f, rules[0]);
      Blocklist(f, rules[1..], p);
      if r :| r in rules && EntryMatches(r, p) && r != rules[0] {
        assert r in rules[1..];
      }
    }
  }
}
