/** The check of multicast addresses: each is printed in dotted decimal and read back from the text. */
module MulticastCheck {
  import opened MachineWords
  import opened Ipv4
  import opened SplitJoin
  import opened Decimal

  const MIN_MC_IP: nat := 0xE000_0001
  const MAX_MC_IP: nat := 0xEFFF_FFFF

  function Octets(h: uint32): (r: seq<nat>)
    ensures |r| == 4
  {
    [Octet(h, 0), Octet(h, 1), Octet(h, 2), Octet(h, 3)]
  }

  function Printed(tokens: seq<nat>): (r: seq<string>)
    ensures |r| == |tokens|
  {
    seq(|tokens|, i requires 0 <= i < |tokens| => Print(tokens[i]))
  }

  /** inet_ntop. */
  function Dotted(h: uint32): string {
    Join(Printed(Octets(h)), ".")
  }

  lemma PrintedToken(tokens: seq<nat>)
    requires tokens != []
    ensures '.' !in Print(tokens[0]) && Parse(Print(tokens[0])) == tokens[0]
    ensures Printed(tokens) == [Print(tokens[0])] + Printed(tokens[1..])
  {
    ParsePrint(tokens[0]);
    assert AllDigits(Print(tokens[0]));
  }

  /** Reading on: the first dot is behind the next token, if another one follows. */
  lemma NextToken(tokens: seq<nat>, k: nat, s: string)
    requires k < |tokens| && s == Join(Printed(tokens[k..]), ".")
    ensures Find(s, ".", 0) >= 0 <==> k + 1 < |tokens|
    ensures AllDigits(Print(tokens[k])) && Parse(Print(tokens[k])) == tokens[k]
    ensures var pos := Find(s, ".", 0);
            if k + 1 < |tokens| then
              s[..pos] == Print(tokens[k]) && s[pos + 1..] == Join(Printed(tokens[k + 1..]), ".")
            else
              s == Print(tokens[k])
  {
    PrintedToken(tokens[k..]);
    assert tokens[k..][1..] == tokens[k + 1..];
    var first, rest := Print(tokens[k]), Printed(tokens[k + 1..]);
    if k + 1 < |tokens| {
      JoinCons(first, rest, ".");
      FirstAt(first, '.', Join(rest, "."));
    } else {
      NotFound(first, '.', 0);
    }
  }

  /** The loop that erases one token after the other from the front of the text. */
  method ReadTokens(text: string, ghost tokens: seq<nat>) returns (intTokens: seq<nat>)
    requires tokens != [] && text == Join(Printed(tokens), ".")
    ensures intTokens == tokens
  {
    hide Find, OccursAt, Join, Printed, Print, Parse;
    var mcipstr := text;
    intTokens := [];
    ghost var k := 0;
    assert tokens[0..] == tokens;
    NextToken(tokens, 0, mcipstr);
    var pos := Find(mcipstr, ".", 0);
    while pos >= 0
      invariant 0 <= k < |tokens| && intTokens == tokens[..k]
      invariant mcipstr == Join(Printed(tokens[k..]), ".") && pos == Find(mcipstr, ".", 0)
      invariant pos >= 0 <==> k + 1 < |tokens|
      decreases |tokens| - k
    {
      NextToken(tokens, k, mcipstr);
      var token := mcipstr[..pos];
      intTokens := intTokens + [Parse(token)];
      mcipstr := mcipstr[pos + 1..];
      k := k + 1;
      pos := Find(mcipstr, ".", 0);
      NextToken(tokens, k, mcipstr);
    }
    NextToken(tokens, k, mcipstr);
    intTokens := intTokens + [Parse(mcipstr)];
  }

  /** Shifts a word left by eight bits. */
  function ShiftLeft8(x: uint32): uint32 {
    x % 0x100_0000 * 0x100
  }

  lemma ShiftedClear(x: nat)
    requires x < 0x100_0000
    ensures ShiftLeft8(x) == 0x100 * x && ShiftLeft8(x) % 0x100 == 0
  {
  }

  predicate AllOctets(tokens: seq<int>) {
    |tokens| == 4 && IsOctet(tokens[0]) && IsOctet(tokens[1]) && IsOctet(tokens[2]) && IsOctet(tokens[3])
  }

  /** The loop that shifts the octets together; -1 if one is out of range. An octet is or-ed into a
      word whose low eight bits are clear, which is adding it. */
  method Assemble(tokens: seq<int>) returns (mcip: int)
    requires |tokens| == 4
    ensures if AllOctets(tokens) then mcip == FromOctets(tokens[0], tokens[1], tokens[2], tokens[3])
            else mcip == -1
  {
    hide ShiftLeft8;
    var word: uint32 := 0;
    for i := 0 to 4
      invariant forall k :: 0 <= k < i ==> IsOctet(tokens[k])
      invariant i < 4 ==> word % 0x100 == 0
      invariant i == 0 ==> word == 0
      invariant i == 1 ==> word == tokens[0] * 0x100
      invariant i == 2 ==> word == tokens[0] * 0x1_0000 + tokens[1] * 0x100
      invariant i == 3 ==> word == tokens[0] * 0x100_0000 + tokens[1] * 0x1_0000 + tokens[2] * 0x100
      invariant i == 4 ==> AllOctets(tokens) && word == FromOctets(tokens[0], tokens[1], tokens[2], tokens[3])
    {
      if tokens[i] > 255 || tokens[i] < 0 {
        return -1;
      }
      word := word + tokens[i];
      if i < 3 {
        ShiftedClear(word);
        word := ShiftLeft8(word);
      }
    }
    mcip := word;
  }

  /** True exactly if every address is a multicast address above the reserved first one, as section 4
      of RFC 1112 bounds them. */
  method IsValidMulticastIp(ipVect: seq<Ipv4Addr>) returns (valid: bool)
    ensures valid <==> forall i :: 0 <= i < |ipVect| ==> MIN_MC_IP <= ipVect[i].HostOrder() <= MAX_MC_IP
  {
    for i := 0 to |ipVect|
      invariant forall k :: 0 <= k < i ==> MIN_MC_IP <= ipVect[k].HostOrder() <= MAX_MC_IP
    {
      var h := ipVect[i].HostOrder();
      var intTokens := ReadTokens(Dotted(h), Octets(h));
      if |intTokens| != 4 {
        return false;
      }
      var mcip := Assemble(intTokens);
      OctetsComplete(h);
      assert mcip == h;
      if mcip < 0 || !(MIN_MC_IP <= mcip <= MAX_MC_IP) {
        return false;
      }
    }
    valid := true;
  }

  /** The bounds are the class D block without its first address. */
  lemma BoundsAreClassD(h: uint32)
    ensures MIN_MC_IP <= h <= MAX_MC_IP <==> 224 <= Octet(h, 0) <= 239 && h != FromOctets(224, 0, 0, 0)
  {
  }
}
