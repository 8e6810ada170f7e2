/** The balance function (netlify/functions/balance/main.go): the address
    is the request path after its route prefix, checked against
    `^0x[0-9a-fA-F]{40}$` before anything else happens. */
module Balance {
  import opened Common
  import Strings

  const PathPrefix := "/.netlify/functions/balance/"
  const AddressNotValidText := "Address not valid"
  const MissingInfuraText := "INFURA_URL environment variable is not set"

  /** The character class `[0-9a-fA-F]`. */
  predicate IsHexDigit(c: char)
  {
    '0' <= c <= '9' || 'a' <= c <= 'f' || 'A' <= c <= 'F'
  }

  /** `[0-9a-fA-F]{n}$`: exactly `n` hex digits and then the end. */
  function HexRun(s: string, n: nat): bool
  {
    if n == 0 then s == []
    else s != [] && IsHexDigit(s[0]) && HexRun(s[1..], n - 1)
  }

  /** `regexp.MatchString("^0x[0-9a-fA-F]{40}$", address)`, matched left to
      right. */
  function IsValidAddress(address: string): bool
  {
    |address| >= 2 && address[0] == '0' && address[1] == 'x' && HexRun(address[2..], 40)
  }

  lemma {:induction false} HexRunExact(s: string, n: nat)
    ensures HexRun(s, n) <==> |s| == n && forall i :: 0 <= i < |s| ==> IsHexDigit(s[i])
  {
    if n > 0 && s != [] {
      HexRunExact(s[1..], n - 1);
      assert forall i :: 1 <= i < |s| ==> s[i] == s[1..][i - 1];
    }
  }

  /** An address is valid exactly when it is 42 characters long, starts with
      a lower-case "0x" and has only hex digits after it. */
  lemma ValidAddressExact(address: string)
    ensures IsValidAddress(address) <==>
      |address| == 42 && address[..2] == "0x" && forall i :: 2 <= i < 42 ==> IsHexDigit(address[i])
  {
    if |address| >= 2 {
      HexRunExact(address[2..], 40);
      assert forall i :: 2 <= i < |address| ==> address[i] == address[2..][i - 2];
    }
  }

  /** An upper-case "0X" prefix is never accepted. */
  lemma UpperCasePrefixRejected(rest: string)
    ensures !IsValidAddress("0X" + rest)
  {
  }

  /** Only the character class is checked, not an EIP-55 checksum: any hex
      digit can replace any other, whatever its case. */
  lemma DigitCaseIgnored(address: string, i: nat, c: char)
    requires IsValidAddress(address)
    requires 2 <= i < |address| && IsHexDigit(c)
    ensures IsValidAddress(address[i := c])
  {
    ValidAddressExact(address);
    ValidAddressExact(address[i := c]);
    assert address[i := c][..2] == address[..2];
  }

  /** What the environment and the Ethereum client give: `INFURA_URL`, the
      error of `ethclient.Dial`, and the result of `BalanceAt`. */
  datatype Chain = Chain(infuraUrl: string, dialError: Option<string>, balanceAt: Result<Wei, string>)

  /** `log.Fatal` ends the process instead of answering. */
  datatype Outcome = Responded(reply: Reply) | Exited(message: string)

  /** `GetBalanceHandler`. */
  function GetBalance(path: string, chain: Chain): (out: Outcome)
    ensures var address := Strings.TrimPrefix(path, PathPrefix);
      && (!IsValidAddress(address) ==> out == Responded(Reply(StatusBadRequest, MessageJson(AddressNotValidText), None)))
      && (IsValidAddress(address) && chain.infuraUrl == "" ==> out == Exited(MissingInfuraText))
      && (out.Responded? && out.reply.Reply? && out.reply.status == StatusOK ==>
            IsValidAddress(address) && chain.infuraUrl != "" && chain.dialError.None? && chain.balanceAt.Success?
            && out.reply == Reply(StatusOK, BalanceJson(address, chain.balanceAt.value), None))
      && (IsValidAddress(address) && chain.infuraUrl != "" && (chain.dialError.Some? || chain.balanceAt.Failure?) ==>
            out.Responded? && out.reply.Reply? && out.reply.status == StatusInternalServerError && out.reply.err.Some?)
  {
    var address := Strings.TrimPrefix(path, PathPrefix);
    if !IsValidAddress(address) then
      Responded(Reply(StatusBadRequest, MessageJson(AddressNotValidText), None))
    else if chain.infuraUrl == "" then
      Exited(MissingInfuraText)
    else if chain.dialError.Some? then
      Responded(Reply(StatusInternalServerError, NoBody, chain.dialError))
    else
      match chain.balanceAt
      case Failure(e) => Responded(Reply(StatusInternalServerError, NoBody, Some(e)))
      case Success(balance) => Responded(Reply(StatusOK, BalanceJson(address, balance), None))
  }

  /** An invalid address is answered before the environment or the client
      is consulted: the outcome does not depend on them. */
  lemma InvalidAddressIgnoresChain(path: string, c1: Chain, c2: Chain)
    requires !IsValidAddress(Strings.TrimPrefix(path, PathPrefix))
    ensures GetBalance(path, c1) == GetBalance(path, c2)
  {
  }

  /** A request for `PathPrefix + address` with a valid address, a set URL
      and a working client reports that same address and its balance. */
  lemma BalanceOfPrefixedPath(address: string, chain: Chain)
    requires IsValidAddress(address)
    requires chain.infuraUrl != "" && chain.dialError.None? && chain.balanceAt.Success?
    ensures GetBalance(PathPrefix + address, chain) == Responded(Reply(StatusOK, BalanceJson(address, chain.balanceAt.value), None))
  {
    Strings.TrimPrefixConcat(PathPrefix, address);
  }
}
