// How a running compositor announces itself (the signature that names its directory
// and the lock file inside) and how hyprctl reads that back.
module Instance {
  import opened Common
  import opened Text

  datatype InstanceData = InstanceData(id: string, time: int, pid: int, wlSocket: string)

  // ---------- The compositor's side ----------

  function Print(n: int): string {
    if n < 0 then "-" + Decimal(-n) else Decimal(n)
  }

  // Commit hash, start time and a random number, joined by underscores.
  function Signature(hash: string, time: int, random: nat): string {
    hash + ['_'] + Print(time) + ['_'] + Decimal(random)
  }

  method CreateLockFile(pid: int, wlSocket: string) returns (ofs: string)
    ensures ofs == LockFile(pid, wlSocket)
  {
    ofs := [];
    ofs := ofs + Print(pid) + ['\n'];
    ofs := ofs + wlSocket + ['\n'];
  }

  function LockFile(pid: int, wlSocket: string): string {
    Print(pid) + ['\n'] + wlSocket + ['\n']
  }

  // ---------- hyprctl's side ----------

  // std::from_chars into a uint64_t that has to consume everything.
  function ToUInt64(s: string): Option<int> {
    if s != [] && (forall i :: 0 <= i < |s| ==> IsDigit(s[i])) && DigitsValue(s) <= UINT64_MAX
    then Some(DigitsValue(s))
    else None
  }

  // The index of the last `c`, or |s|.
  function LastOf(s: string, c: char): (i: nat)
    ensures i <= |s|
    ensures i < |s| ==> s[i] == c && c !in s[i + 1..]
    ensures i == |s| ==> c !in s
  {
    if s == [] then 0
    else if s[|s| - 1] == c then |s| - 1
    else
      var i := LastOf(s[..|s| - 1], c);
      assert s == s[..|s| - 1] + [s[|s| - 1]];
      if i == |s| - 1 then |s| else
        assert s[i + 1..] == s[..|s| - 1][i + 1..] + [s[|s| - 1]];
        i
  }

  // std::getline: the line, and what is left of the stream. It fails only when
  // nothing at all could be read.
  function GetLine(stream: string): Option<(string, string)> {
    if stream == [] then None else
      var end := FirstOf(stream, '\n');
      Some((stream[..end], if end < |stream| then stream[end + 1..] else []))
  }

  function ParsedTime(name: string): Option<int> {
    var first, last := FirstOf(name, '_'), LastOf(name, '_');
    if first < last < |name| then ToUInt64(name[first + 1..last]) else None
  }

  // The pid and the socket; a third line may only be empty.
  function ParsedLock(lock: string): Option<(int, string)> {
    match GetLine(lock)
    case None => None
    case Some((first, afterFirst)) =>
      match (ToUInt64(first), GetLine(afterFirst))
      case (Some(pid), Some((second, afterSecond))) =>
        var third := GetLine(afterSecond);
        if third.Some? && third.value.0 != [] then None else Some((pid, second))
      case _ => None
  }

  function Parsed(name: string, lock: string): Option<InstanceData> {
    match (ParsedTime(name), ParsedLock(lock))
    case (Some(time), Some((pid, socket))) => Some(InstanceData(name, time, pid, socket))
    case _ => None
  }

  method ParseTime(name: string) returns (time: Option<int>)
    ensures time == ParsedTime(name)
  {
    var first, last := FirstOf(name, '_'), LastOf(name, '_');
    if first == |name| || last == |name| || last <= first {
      return None;
    }
    time := ToUInt64(name[first + 1..last]);
  }

  method ReadLock(lock: string) returns (r: Option<(int, string)>)
    ensures r == ParsedLock(lock)
  {
    var ifs := lock;
    var line := GetLine(ifs);
    if line == None {
      return None;
    }
    ifs := line.value.1;
    var pid := ToUInt64(line.value.0);
    if pid == None {
      return None;
    }
    line := GetLine(ifs);
    if line == None {
      return None;
    }
    var wlSocket := line.value.0;
    ifs := line.value.1;
    line := GetLine(ifs);
    if line.Some? && line.value.0 != [] {
      return None;
    }
    return Some((pid.value, wlSocket));
  }

  // The directory's name and the contents of its lock file, if it has one.
  method ParseInstance(isDirectory: bool, name: string, lock: Option<string>) returns (r: Option<InstanceData>)
    ensures r == if isDirectory && lock.Some? then Parsed(name, lock.value) else None
  {
    if !isDirectory {
      return None;
    }
    if lock == None {
      return None;
    }
    var data := InstanceData(name, 0, 0, "");
    var time := ParseTime(data.id);
    if time == None {
      return None;
    }
    data := data.(time := time.value);
    var lines := ReadLock(lock.value);
    if lines == None {
      return None;
    }
    data := data.(pid := lines.value.0, wlSocket := lines.value.1);
    return Some(data);
  }

  // ---------- The round trip ----------

  lemma {:induction false} PrintedIsRead(n: int)
    ensures ToUInt64(Print(n)) == if 0 <= n <= 0xffff_ffff_ffff_ffff then Some(n) else None
    ensures '_' !in Print(n) && '\n' !in Print(n)
  {
    if n < 0 {
      assert Print(n)[0] == '-';
      assert forall c :: c in Print(n) ==> c == '-' || c in Decimal(-n);
    } else {
      DecimalValue(n);
      assert forall i :: 0 <= i < |Decimal(n)| ==> Decimal(n)[i] in Decimal(n);
    }
  }

  lemma {:induction false} LastOfSuffix(a: string, c: char, b: string)
    requires c !in b
    ensures LastOf(a + [c] + b, c) == |a|
  {
    if b == [] {
      assert a + [c] + b == a + [c];
    } else {
      var n := |b| - 1;
      assert (a + [c] + b)[..|a + [c] + b| - 1] == a + [c] + b[..n];
      LastOfSuffix(a, c, b[..n]);
    }
  }

  lemma {:induction false} NotANumber(s: string, c: char)
    requires c in s && !IsDigit(c)
    ensures ToUInt64(s) == None
  {
    var i :| 0 <= i < |s| && s[i] == c;
  }

  lemma {:induction false} SignatureLast(hash: string, time: int, random: nat)
    ensures LastOf(Signature(hash, time, random), '_') == |hash| + 1 + |Print(time)|
  {
    PrintedIsRead(random);
    assert Print(random) == Decimal(random);
    LastOfSuffix(hash + ['_'] + Print(time), '_', Decimal(random));
  }

  lemma {:induction false} TimeAfterPlainHash(hash: string, time: int, random: nat)
    requires '_' !in hash
    ensures ParsedTime(Signature(hash, time, random)) == ToUInt64(Print(time))
  {
    var rest := Print(time) + ['_'] + Decimal(random);
    SignatureLast(hash, time, random);
    FirstOfPrefix(hash, '_', rest);
    RegroupTail(hash, ['_'], Print(time), ['_'], Decimal(random));
    Regroup(hash + ['_'] + Print(time), ['_'], Decimal(random));
    Middle(hash + ['_'], Print(time), ['_'] + Decimal(random));
  }

  // An underscore in the hash ends up inside the text that should be the time.
  lemma {:induction false} TimeAfterOtherHash(hash: string, time: int, random: nat)
    requires '_' in hash
    ensures ParsedTime(Signature(hash, time, random)) == None
  {
    var name := Signature(hash, time, random);
    SignatureLast(hash, time, random);
    assert name[|hash|] == '_';
    FirstIsEarly(hash, '_', ['_'] + Print(time) + ['_'] + Decimal(random));
    RegroupAll(hash, ['_'], Print(time), ['_'], Decimal(random));
    var first, last := FirstOf(name, '_'), LastOf(name, '_');
    assert name[first + 1..last][|hash| - first - 1] == name[|hash|];
    NotANumber(name[first + 1..last], '_');
  }

  lemma {:induction false} RegroupAll(a: string, b: string, c: string, d: string, e: string)
    ensures a + b + c + d + e == a + (b + c + d + e)
  {}

  lemma {:induction false} FirstIsEarly(s: string, c: char, rest: string)
    requires c in s
    ensures FirstOf(s + rest, c) < |s|
  {
    if s[0] != c {
      assert (s + rest)[1..] == s[1..] + rest;
      FirstIsEarly(s[1..], c, rest);
    }
  }

  // The time comes back exactly when the commit hash has no '_' (and it fits).
  lemma {:induction false} SignatureTime(hash: string, time: int, random: nat)
    ensures ParsedTime(Signature(hash, time, random)) ==
            if '_' !in hash && 0 <= time <= 0xffff_ffff_ffff_ffff then Some(time) else None
  {
    PrintedIsRead(time);
    if '_' in hash {
      TimeAfterOtherHash(hash, time, random);
    } else {
      TimeAfterPlainHash(hash, time, random);
    }
  }

  lemma {:induction false} GetLineOf(line: string, rest: string)
    requires '\n' !in line
    ensures GetLine(line + ['\n'] + rest) == Some((line, rest))
  {
    FirstOfPrefix(line, '\n', rest);
    var s := line + ['\n'] + rest;
    assert s[..|line|] == line && s[|line| + 1..] == rest;
  }

  // A socket name of one line is read whole, and nothing follows it; of any other
  // name only a part is read.
  lemma {:induction false} SocketLine(wlSocket: string)
    ensures '\n' !in wlSocket ==> GetLine(wlSocket + ['\n']) == Some((wlSocket, []))
    ensures '\n' in wlSocket ==> GetLine(wlSocket + ['\n']).value.0 != wlSocket
  {
    if '\n' in wlSocket {
      FirstIsEarly(wlSocket, '\n', ['\n']);
    } else {
      assert wlSocket + ['\n'] + [] == wlSocket + ['\n'];
      GetLineOf(wlSocket, []);
    }
  }

  // Pid and socket come back exactly when the pid fits and the socket name is one line.
  lemma {:induction false} LockContents(pid: int, wlSocket: string)
    ensures ParsedLock(LockFile(pid, wlSocket)) == Some((pid, wlSocket)) <==>
            0 <= pid <= 0xffff_ffff_ffff_ffff && '\n' !in wlSocket
  {
    PrintedIsRead(pid);
    Regroup(Print(pid) + ['\n'], wlSocket, ['\n']);
    GetLineOf(Print(pid), wlSocket + ['\n']);
    SocketLine(wlSocket);
  }

  // Whatever follows the two lines must start with an empty line.
  lemma {:induction false} ThirdLineExact(pid: int, wlSocket: string, rest: string)
    requires 0 <= pid <= 0xffff_ffff_ffff_ffff && '\n' !in wlSocket
    ensures ParsedLock(LockFile(pid, wlSocket) + rest) ==
            if rest == [] || rest[0] == '\n' then Some((pid, wlSocket)) else None
  {
    PrintedIsRead(pid);
    RegroupLines(Print(pid), ['\n'], wlSocket, rest);
    GetLineOf(Print(pid), wlSocket + ['\n'] + rest);
    GetLineOf(wlSocket, rest);
  }

  lemma {:induction false} RegroupLines(a: string, nl: string, b: string, rest: string)
    ensures a + nl + b + nl + rest == a + nl + (b + nl + rest)
  {}

  // A lock file of one line is not read.
  lemma {:induction false} OneLineIsNoLock(line: string)
    requires '\n' !in line
    ensures ParsedLock(line) == None && ParsedLock(line + ['\n']) == None
  {
    if line != [] {
      NoBreak(line);
    }
    assert line + ['\n'] + [] == line + ['\n'];
    GetLineOf(line, []);
  }

  lemma {:induction false} NoBreak(line: string)
    requires '\n' !in line && line != []
    ensures GetLine(line) == Some((line, []))
  {
    var end := FirstOf(line, '\n');
    assert forall i :: 0 <= i < |line| ==> line[i] != '\n';
    assert end == |line| && line[..end] == line;
  }

  // What hyprctl reads is what the compositor wrote, exactly under these conditions.
  lemma {:induction false} InstanceRoundTrip(hash: string, time: int, random: nat, pid: int, wlSocket: string)
    ensures var id := Signature(hash, time, random);
            Parsed(id, LockFile(pid, wlSocket)) == Some(InstanceData(id, time, pid, wlSocket)) <==>
            && '_' !in hash && '\n' !in wlSocket
            && 0 <= time <= 0xffff_ffff_ffff_ffff && 0 <= pid <= 0xffff_ffff_ffff_ffff
  {
    SignatureTime(hash, time, random);
    LockContents(pid, wlSocket);
  }
}
