/**
 * The connection-address part of the SDP `c=` field (RFC 4566, section 5.7;
 * RFC 2327, section 6): a host address, optionally followed by `/ttl` and
 * `/number-of-addresses`, which the source keeps in a field called `port`.
 */
module SdpConnection {
  import opened Wrappers
  import opened Text
  import opened Decimal

  /** Java's 32-bit `int`. */
  type Int32 = x: int | -0x8000_0000 <= x < 0x8000_0000

  /**
   * A host address. Its own class is not part of this model: it is an
   * opaque text whose encoding is the text itself and whose clone is a
   * fresh object holding the same text.
   */
  class Host {
    var text: string

    constructor (text: string)
      ensures this.text == text
    {
      this.text := text;
    }

    function Encode(): string
      reads this
    {
      text
    }

    method Clone() returns (h: Host)
      ensures fresh(h) && h.text == text
    {
      h := new Host(text);
    }
  }

  /** The three values a connection address carries on the wire. */
  datatype ConnectionFields = ConnectionFields(address: string, ttl: int, port: int)

  /**
   * The wire form built from an address text and the two numbers: the
   * address alone when the ttl is 0, otherwise followed by a `/`.
   */
  function EncodeFields(address: string, ttl: int, port: int): (r: string)
    ensures address <= r
    ensures ttl == 0 <==> r == address
    ensures ttl != 0 ==> r[|address|] == '/'
  {
    if ttl != 0 && port != 0 then address + "/" + IntToDecimal(ttl) + "/" + IntToDecimal(port)
    else if ttl != 0 then address + "/" + IntToDecimal(ttl)
    else address
  }

  /**
   * Reference reader for `<address>[/<ttl>[/<number of addresses>]]`;
   * a missing number reads as 0.
   */
  function ParseConnectionAddress(s: string): Option<ConnectionFields>
  {
    var pieces := Split(s, '/');
    if |pieces| == 1 then Some(ConnectionFields(s, 0, 0))
    else if |pieces| == 2 then
      match ParseInt(pieces[1])
      case Some(ttl) => Some(ConnectionFields(pieces[0], ttl, 0))
      case None => None
    else if |pieces| == 3 then
      match (ParseInt(pieces[1]), ParseInt(pieces[2]))
      case (Some(ttl), Some(port)) => Some(ConnectionFields(pieces[0], ttl, port))
      case _ => None
    else None
  }

  /** How many `/`-separated pieces the wire form has: the numbers written. */
  function PieceCount(ttl: int, port: int): nat
  {
    if ttl == 0 then 1 else if port == 0 then 2 else 3
  }

  /**
   * The encoding reads back to the address and the ttl, and to the port
   * only when the ttl is non-zero: with ttl 0 the port is not written.
   * A number is written only when it is needed: the ttl when it is
   * non-zero, the port when both are.
   */
  lemma EncodeFieldsRoundTrip(address: string, ttl: int, port: int)
    requires '/' !in address
    ensures ParseConnectionAddress(EncodeFields(address, ttl, port))
         == Some(ConnectionFields(address, ttl, if ttl == 0 then 0 else port))
    ensures |Split(EncodeFields(address, ttl, port), '/')| == PieceCount(ttl, port)
  {
    var t, p := IntToDecimal(ttl), IntToDecimal(port);
    IntDecimalRoundTrip(ttl);
    IntDecimalRoundTrip(port);
    if ttl != 0 && port != 0 {
      assert [address, t, p][1..] == [t, p] && [t, p][1..] == [p];
      assert Join([t, p], "/") == t + "/" + p;
      assert Join([address, t, p], "/") == address + "/" + (t + "/" + p);
      assert address + "/" + (t + "/" + p) == address + "/" + t + "/" + p;
      SplitJoin([address, t, p], '/');
    } else if ttl != 0 {
      assert Join([address, t], "/") == address + "/" + t;
      SplitJoin([address, t], '/');
    } else {
      SplitJoin([address], '/');
    }
  }

  class ConnectionAddress {
    var address: Host?
    var ttl: Int32
    var port: Int32

    /** A new connection address has no host and ttl and port 0. */
    constructor ()
      ensures address == null && ttl == 0 && port == 0
    {
      address := null;
      ttl := 0;
      port := 0;
    }

    function GetAddress(): Host?
      reads this
    {
      address
    }

    function GetTtl(): Int32
      reads this
    {
      ttl
    }

    function GetPort(): Int32
      reads this
    {
      port
    }

    method SetAddress(a: Host?)
      modifies this
      ensures GetAddress() == a
      ensures ttl == old(ttl) && port == old(port)
    {
      address := a;
    }

    method SetTtl(t: Int32)
      modifies this
      ensures GetTtl() == t
      ensures address == old(address) && port == old(port)
    {
      ttl := t;
    }

    method SetPort(p: Int32)
      modifies this
      ensures GetPort() == p
      ensures address == old(address) && ttl == old(ttl)
    {
      port := p;
    }

    /** The host's encoding, or the empty string when there is no host. */
    function AddressText(): string
      reads this, address
    {
      if address == null then "" else address.Encode()
    }

    /**
     * The wire form: it starts with the host's text, and (for a host text
     * without '/') reads back to the host, the ttl and, only when the ttl
     * is non-zero, the port.
     */
    function Encode(): (r: string)
      reads this, address
      ensures AddressText() <= r
      ensures '/' !in AddressText()
          ==> ParseConnectionAddress(r) == Some(ConnectionFields(AddressText(), ttl, if ttl == 0 then 0 else port))
      ensures '/' !in AddressText() ==> |Split(r, '/')| == PieceCount(ttl, port)
    {
      var text := AddressText();
      if '/' in text then EncodeFields(text, ttl, port)
      else
        EncodeFieldsRoundTrip(text, ttl, port);
        EncodeFields(text, ttl, port)
    }

    /** A copy with the same numbers and its own copy of the host. */
    method Clone() returns (c: ConnectionAddress)
      ensures fresh(c)
      ensures c.ttl == ttl && c.port == port
      ensures (c.address == null) == (address == null)
      ensures address != null ==> fresh(c.address) && c.address.text == address.text
      ensures c.Encode() == Encode()
    {
      c := new ConnectionAddress();
      c.ttl := ttl;
      c.port := port;
      if address != null {
        c.address := address.Clone();
      }
    }
  }
}
