/**
 The Nexus wallet files: one JSON record per CryLo wallet, under a file name derived from the wallet's name.
 The key generator's output and the outcome of every registration with the bridge are arbitrary; a generated wallet
 has a non-empty address and a non-empty key. Each handler reaches its file access without waiting, so calls
 do not interleave there.
 */
module NexusBinding {
  import opened Options
  import opened Sequences

  // ----- file names -----

  predicate IsSafeChar(c: char) {
    'a' <= c <= 'z' || 'A' <= c <= 'Z' || '0' <= c <= '9'
  }

  /** Every UTF-16 code unit that is no ASCII letter or digit becomes an underscore. */
  function SafeFileName(name: string): (r: string)
    ensures forall i :: 0 <= i < |r| ==> IsSafeChar(r[i]) || r[i] == '_'
  {
    if name == "" then ""
    else SafeUnits(name[0]) + SafeFileName(name[1..])
  }

  function SafeUnits(c: char): string {
    if IsSafeChar(c) then [c] else if c as int > 0xFFFF then "__" else "_"
  }

  /** Names of letters, digits and underscores are kept, and only those, so no two of them share a file. */
  lemma {:induction false} SafeNameFixed(name: string)
    ensures SafeFileName(name) == name <==> forall i :: 0 <= i < |name| ==> IsSafeChar(name[i]) || name[i] == '_'
  {
    if name != "" {
      SafeNameFixed(name[1..]);
      SafeNameGrows(name[1..]);
      assert name == [name[0]] + name[1..];
      assert forall i :: 1 <= i < |name| ==> name[i] == name[1..][i - 1];
      var tail := SafeFileName(name[1..]);
      if SafeFileName(name) == name {
        assert SafeFileName(name)[1..] == tail;
      }
    }
  }

  lemma {:induction false} SafeNameGrows(name: string)
    ensures |SafeFileName(name)| >= |name|
  {
    if name != "" { SafeNameGrows(name[1..]); }
  }

  const SMALL: string := "abcdefghijklmnopqrstuvwxyz"
  const CAPITAL: string := "ABCDEFGHIJKLMNOPQRSTUVWXYZ"
  const DIGITS: string := "0123456789"

  lemma SafeCharsListed(c: char)
    ensures IsSafeChar(c) <==> c in SMALL || c in CAPITAL || c in DIGITS
  {
  }

  /** The code units of a name in UTF-16. */
  function CodeUnits(name: string): nat {
    if name == "" then 0 else (if name[0] as int > 0xFFFF then 2 else 1) + CodeUnits(name[1..])
  }

  lemma {:induction false} SafeNameLength(name: string)
    ensures |SafeFileName(name)| == CodeUnits(name)
  {
    if name != "" { SafeNameLength(name[1..]); }
  }

  lemma SafeNameStep(name: string)
    ensures name == "" ==> SafeFileName(name) == ""
    ensures name != "" ==> SafeFileName(name) == SafeUnits(name[0]) + SafeFileName(name[1..])
  {
  }

  lemma {:induction false} SafeNameAppend(a: string, b: string)
    ensures SafeFileName(a + b) == SafeFileName(a) + SafeFileName(b)
  {
    hide SafeFileName, SafeUnits;
    SafeNameStep(a);
    SafeNameStep(a + b);
    if a == "" {
      assert a + b == b;
    } else {
      SafeNameAppend(a[1..], b);
      assert (a + b)[0] == a[0] && (a + b)[1..] == a[1..] + b;
      Join(SafeUnits(a[0]), SafeFileName(a[1..]), SafeFileName(b));
    }
  }

  /** Wherever it stands, a letter or digit is kept and every code unit of another character becomes an underscore. */
  lemma {:induction false} SafeNameUnits(before: string, c: char, after: string)
    ensures SafeFileName(before + [c] + after)
         == SafeFileName(before)
            + (if c in SMALL || c in CAPITAL || c in DIGITS then [c] else if c as int > 0xFFFF then "__" else "_")
            + SafeFileName(after)
  {
    hide SMALL, CAPITAL, DIGITS, SafeFileName, IsSafeChar;
    SafeCharsListed(c);
    SafeNameAppend(before + [c], after);
    SafeNameAppend(before, [c]);
    SafeNameStep([c]);
    assert [c][1..] == "";
    SafeNameStep("");
    assert SafeUnits(c) + "" == SafeUnits(c);
  }

  // ----- the handlers, as functions of the files before -----

  datatype Record = Record(walletName: string, cryloAddress: string, nexusAddress: string, privateKey: string)

  datatype Wallet = Wallet(address: string, privateKey: string)

  /** What ethers.Wallet.createRandom yields. */
  type FreshWallet = w: Wallet | w.address != "" && w.privateKey != "" witness Wallet("0", "0")

  datatype Reply = Failed | Created(alreadyExists: bool, nexusAddress: string, gasRegistered: bool)

  datatype BoundError = NoWallet | NoFile | WrongBinding | NoKey

  datatype Bound = Opened(privateKey: string) | Refused(error: BoundError)

  /** The files, and the file name of every key ever generated, in order. */
  datatype Store = Store(files: map<string, Record>, generated: seq<string>)

  function Create(s: Store, walletName: string, cryloAddress: string, minted: FreshWallet, registers: bool)
    : (Store, Reply)
  {
    if walletName == "" || cryloAddress == "" then (s, Failed)
    else
      var file := SafeFileName(walletName);
      if file in s.files then
        var existing := s.files[file];
        if existing.nexusAddress == "" then (s, Created(true, "", false))
        else (s, if registers then Created(true, existing.nexusAddress, true) else Failed)
      else
        var record := Record(walletName, cryloAddress, minted.address, minted.privateKey);
        (Store(s.files[file := record], s.generated + [file]),
         if registers then Created(false, minted.address, true) else Failed)
  }

  /** The address shown for a wallet, empty when there is none. */
  function Load(s: Store, walletName: string, cryloAddress: string): string {
    if walletName == "" || cryloAddress == "" then ""
    else
      var file := SafeFileName(walletName);
      if file !in s.files || s.files[file].cryloAddress != cryloAddress then "" else s.files[file].nexusAddress
  }

  function LoadBound(s: Store, walletName: string, cryloAddress: string): Bound {
    if walletName == "" || cryloAddress == "" then Refused(NoWallet)
    else
      var file := SafeFileName(walletName);
      if file !in s.files then Refused(NoFile)
      else if s.files[file].cryloAddress != cryloAddress then Refused(WrongBinding)
      else if s.files[file].privateKey == "" then Refused(NoKey)
      else Opened(s.files[file].privateKey)
  }

  class NexusWallets {
    var files: map<string, Record>
    ghost var generated: seq<string>

    ghost function View(): Store
      reads this
    {
      Store(files, generated)
    }

    constructor ()
      ensures View() == Store(map[], [])
    {
      files, generated := map[], [];
    }

    method HandleCreate(walletName: string, cryloAddress: string, minted: FreshWallet, registers: bool)
      returns (reply: Reply)
      modifies this
      ensures (View(), reply) == Create(old(View()), walletName, cryloAddress, minted, registers)
    {
      if walletName == "" || cryloAddress == "" {
        return Failed;
      }
      var file := SafeFileName(walletName);
      if file in files {
        var existing := files[file];
        var registered := false;
        if existing.nexusAddress != "" {
          if !registers { return Failed; }
          registered := true;
        }
        return Created(true, existing.nexusAddress, registered);
      }
      generated := generated + [file];
      files := files[file := Record(walletName, cryloAddress, minted.address, minted.privateKey)];
      if !registers { return Failed; }
      return Created(false, minted.address, true);
    }

    method HandleLoad(walletName: string, cryloAddress: string) returns (address: string)
      ensures address == Load(View(), walletName, cryloAddress)
    {
      if walletName == "" || cryloAddress == "" { return ""; }
      var file := SafeFileName(walletName);
      if file !in files { return ""; }
      var data := files[file];
      if data.cryloAddress != cryloAddress { return ""; }
      return data.nexusAddress;
    }

    method OpenBound(walletName: string, cryloAddress: string) returns (bound: Bound)
      ensures bound == LoadBound(View(), walletName, cryloAddress)
    {
      if walletName == "" || cryloAddress == "" { return Refused(NoWallet); }
      var file := SafeFileName(walletName);
      if file !in files { return Refused(NoFile); }
      var data := files[file];
      if data.cryloAddress != cryloAddress { return Refused(WrongBinding); }
      if data.privateKey == "" { return Refused(NoKey); }
      return Opened(data.privateKey);
    }
  }

  // ----- runs -----

  /** A create call; loads change nothing, so a run is the sequence of its creates. */
  datatype Call = Call(walletName: string, cryloAddress: string, minted: FreshWallet, registers: bool)

  function Run(s: Store, calls: seq<Call>): Store
    decreases calls
  {
    if calls == [] then s
    else
      var c := calls[0];
      Run(Create(s, c.walletName, c.cryloAddress, c.minted, c.registers).0, calls[1..])
  }

  const EMPTY := Store(map[], [])

  /** The record the first create under a file name asks for. */
  function FirstCreate(calls: seq<Call>, file: string): Option<Record>
    decreases calls
  {
    if calls == [] then None
    else
      var c := calls[0];
      if c.walletName != "" && c.cryloAddress != "" && SafeFileName(c.walletName) == file
      then Some(Record(c.walletName, c.cryloAddress, c.minted.address, c.minted.privateKey))
      else FirstCreate(calls[1..], file)
  }

  function Stored(s: Store, file: string): Option<Record> {
    if file in s.files then Some(s.files[file]) else None
  }

  /**
   Over every run, with registrations failing at will, a file keeps the record it has, and otherwise
   holds the record of the first create under its name: bindings are never overwritten or removed.
   */
  lemma {:induction false} BindingIsFirstCreate(s: Store, calls: seq<Call>, file: string)
    ensures Stored(Run(s, calls), file) == if file in s.files then Stored(s, file) else FirstCreate(calls, file)
    decreases calls
  {
    if calls != [] {
      var c := calls[0];
      hide SafeFileName;
      BindingIsFirstCreate(Create(s, c.walletName, c.cryloAddress, c.minted, c.registers).0, calls[1..], file);
    }
  }

  /**
   Create answers with an address exactly when a wallet is open and either registration succeeds or an existing file
   holds no address to register; the address is the stored one, or the new one when there was no file.
   */
  lemma {:induction false} CreateAnswers(s: Store, c: Call)
    ensures var reply := Create(s, c.walletName, c.cryloAddress, c.minted, c.registers).1;
            var earlier := Stored(s, SafeFileName(c.walletName));
            && (reply.Created? <==> c.walletName != "" && c.cryloAddress != ""
                                    && (c.registers || (earlier.Some? && earlier.value.nexusAddress == "")))
            && (reply.Created? ==>
                  && (reply.alreadyExists <==> earlier.Some?)
                  && reply.nexusAddress == (if earlier.Some? then earlier.value.nexusAddress else c.minted.address)
                  && (reply.gasRegistered <==> reply.nexusAddress != ""))
  {
    hide SafeFileName;
  }

  /** Keys and files correspond: one key was generated for every file and none besides. */
  ghost predicate OneKeyPerFile(s: Store) {
    && (forall i, j :: 0 <= i < j < |s.generated| ==> s.generated[i] != s.generated[j])
    && (forall file :: file in s.generated <==> file in s.files)
    && (forall file :: file in s.files ==> s.files[file].privateKey != "" && s.files[file].nexusAddress != "")
  }

  lemma {:induction false} RunKeepsOneKeyPerFile(s: Store, calls: seq<Call>)
    requires OneKeyPerFile(s)
    ensures OneKeyPerFile(Run(s, calls))
    decreases calls
  {
    if calls != [] {
      var c := calls[0];
      hide SafeFileName;
      var t := Create(s, c.walletName, c.cryloAddress, c.minted, c.registers).0;
      assert OneKeyPerFile(t);
      RunKeepsOneKeyPerFile(t, calls[1..]);
    }
  }

  /**
   After any run from no files, load shows an address exactly when the first create under the wallet's file name
   was for this CryLo address, and then it is the address generated there; the signing wallet opens on exactly
   the same inputs, with the key of the same record.
   */
  lemma {:induction false} LoadShowsFirstBinding(calls: seq<Call>, walletName: string, cryloAddress: string)
    ensures var s := Run(EMPTY, calls);
            var first := FirstCreate(calls, SafeFileName(walletName));
            && (Load(s, walletName, cryloAddress) != "" <==>
                  walletName != "" && cryloAddress != "" && first.Some? && first.value.cryloAddress == cryloAddress)
            && (Load(s, walletName, cryloAddress) != "" <==> LoadBound(s, walletName, cryloAddress).Opened?)
            && (Load(s, walletName, cryloAddress) != "" ==>
                  && Load(s, walletName, cryloAddress) == first.value.nexusAddress
                  && LoadBound(s, walletName, cryloAddress) == Opened(first.value.privateKey))
            && (LoadBound(s, walletName, cryloAddress) == Refused(NoWallet) <==> walletName == "" || cryloAddress == "")
            && (LoadBound(s, walletName, cryloAddress) == Refused(NoFile) <==>
                  walletName != "" && cryloAddress != "" && first.None?)
            && LoadBound(s, walletName, cryloAddress) != Refused(NoKey)
  {
    hide SafeFileName;
    var s, file := Run(EMPTY, calls), SafeFileName(walletName);
    BindingIsFirstCreate(EMPTY, calls, file);
    RunKeepsOneKeyPerFile(EMPTY, calls);
  }

  /**
   A create that succeeds answers with an address. Load shows that address for the same wallet, at once and after any
   later calls, exactly when no earlier create under the file name was for another CryLo address, because create
   itself does not compare addresses.
   */
  lemma {:induction false} CreatedIsLoadable(calls: seq<Call>, c: Call, later: seq<Call>)
    requires Create(Run(EMPTY, calls), c.walletName, c.cryloAddress, c.minted, c.registers).1.Created?
    ensures var (t, reply) := Create(Run(EMPTY, calls), c.walletName, c.cryloAddress, c.minted, c.registers);
            var earlier := FirstCreate(calls, SafeFileName(c.walletName));
            && reply.nexusAddress != ""
            && (Load(Run(t, later), c.walletName, c.cryloAddress) == reply.nexusAddress
                <==> earlier.None? || earlier.value.cryloAddress == c.cryloAddress)
  {
    hide SafeFileName, Run;
    var s, file := Run(EMPTY, calls), SafeFileName(c.walletName);
    BindingIsFirstCreate(EMPTY, calls, file);
    RunKeepsOneKeyPerFile(EMPTY, calls);
    var t := Create(s, c.walletName, c.cryloAddress, c.minted, c.registers).0;
    BindingIsFirstCreate(t, later, file);
  }

  /** Two names that differ only in a space and an underscore: the second is answered with the first's address. */
  lemma {:induction false} CollidingNames(first: FreshWallet, second: FreshWallet)
    ensures var s := Create(EMPTY, "a b", "X", first, true).0;
            var (t, reply) := Create(s, "a_b", "Y", second, true);
            && reply == Created(true, first.address, true)
            && Load(t, "a_b", "Y") == ""
  {
    assert "a b"[1..] == " b" && " b"[1..] == "b" && "b"[1..] == "";
    assert "a_b"[1..] == "_b" && "_b"[1..] == "b";
    assert SafeFileName("b") == "b" && SafeFileName(" b") == "_b" && SafeFileName("_b") == "_b";
    assert SafeFileName("a b") == "a_b" && SafeFileName("a_b") == "a_b";
  }

  /** A create whose registration fails answers with an error, but its binding stays through every later call. */
  lemma {:induction false} FailedRegistrationKeepsBinding(s: Store, c: Call, later: seq<Call>, again: FreshWallet)
    requires c.walletName != "" && c.cryloAddress != "" && SafeFileName(c.walletName) !in s.files && !c.registers
    ensures var (t, reply) := Create(s, c.walletName, c.cryloAddress, c.minted, c.registers);
            var u := Run(t, later);
            && reply == Failed
            && Load(u, c.walletName, c.cryloAddress) == c.minted.address
            && LoadBound(u, c.walletName, c.cryloAddress) == Opened(c.minted.privateKey)
            && Create(u, c.walletName, c.cryloAddress, again, true) == (u, Created(true, c.minted.address, true))
  {
    hide SafeFileName, Run;
    var t := Create(s, c.walletName, c.cryloAddress, c.minted, c.registers).0;
    BindingIsFirstCreate(t, later, SafeFileName(c.walletName));
  }
}
