/** Root-device names (config/mtk2/kernel/do_mounts.c: the /dev/ branch of name_to_dev_t).

    A C string is a string without NUL. The kernel's table of disks is a finite map from a disk name and a partition
    number to a device number; no entry, and the number 0, mean that there is no such device. */
module RootDevice {

  import Modulo

  type Disks = map<(string, int), nat>

  const ROOT_NFS := 0xff
  const ROOT_RAM0 := 0x100000

  /** blk_lookup_devt. */
  function Lookup(disks: Disks, name: string, part: int): nat {
    if (name, part) in disks then disks[(name, part)] else 0
  }

  predicate IsDigit(c: char) { '0' <= c <= '9' }

  predicate Digits(s: string) { forall i :: 0 <= i < |s| ==> IsDigit(s[i]) }

  function Digit(c: char): (d: nat)
    requires IsDigit(c)
    ensures d < 10
  {
    c as int - '0' as int
  }

  predicate CString(s: string) { forall i :: 0 <= i < |s| ==> s[i] != '\0' }

  /** The kernel's form of a name: bangs for slashes. */
  function Bang(s: string): string { seq(|s|, i requires 0 <= i < |s| => if s[i] == '/' then '!' else s[i]) }

  /** How much of s stands in front of its trailing digits. */
  function Stem(s: string): (k: nat)
    ensures k <= |s| && Digits(s[k..]) && (k > 0 ==> !IsDigit(s[k - 1]))
  {
    if s == "" || !IsDigit(s[|s| - 1]) then |s|
    else
      var k := Stem(s[..|s| - 1]);
      assert s[k..] == s[..|s| - 1][k..] + [s[|s| - 1]];
      k
  }

  function Value(digits: string): nat
    requires Digits(digits)
  {
    if digits == "" then 0
    else 10 * Value(digits[..|digits| - 1]) + Digit(digits[|digits| - 1])
  }

  /** An unsigned 32-bit value stored in an int. */
  function Wrapped(n: nat): int {
    var u := n % 0x1_0000_0000;
    if u < 0x8000_0000 then u else u - 0x1_0000_0000
  }

  /** What the kernel makes of a name in its own form: a whole disk, or a stem and a partition number without a
      leading zero, or the same with a p between a digit and the number. */
  function Resolve(disks: Disks, s: string): nat {
    var k := Stem(s);
    var stem, part := s[..k], Wrapped(Value(s[k..]));
    if Lookup(disks, s, 0) != 0 then Lookup(disks, s, 0)
    else if k == 0 || k == |s| || s[k] == '0' then 0
    else if Lookup(disks, stem, part) != 0 then Lookup(disks, stem, part)
    else if k >= 2 && IsDigit(stem[k - 2]) && stem[k - 1] == 'p' then Lookup(disks, stem[..k - 1], part)
    else 0
  }

  /** What name_to_dev_t makes of "/dev/" + name. */
  function Interpret(disks: Disks, name: string): nat {
    if name == "nfs" then ROOT_NFS
    else if name == "ram" then ROOT_RAM0
    else if |name| > 31 then 0
    else Resolve(disks, Bang(name))
  }

  // ----- the code -------------------------------------------------------------------------------------------

  /** The C string in a buffer. */
  function Contents(b: seq<char>): string {
    if b == [] || b[0] == '\0' then "" else [b[0]] + Contents(b[1..])
  }

  lemma {:induction false} ContentsIs(b: seq<char>, k: nat)
    requires k < |b| && b[k] == '\0' && CString(b[..k])
    ensures Contents(b) == b[..k]
  {
    if k > 0 {
      assert b[..k][0] == b[0];
      assert b[1..][..k - 1] == b[..k][1..];
      ContentsIs(b[1..], k - 1);
      assert b[..k] == [b[0]] + b[1..][..k - 1];
    }
  }

  /** The loop over the buffer that turns slashes into bangs, and leaves p at the end. */
  method BangInPlace(s: array<char>, ghost name: string) returns (p: nat)
    requires s.Length == 32 && |name| <= 31 && CString(name) && s[..|name|] == name && s[|name|] == '\0'
    modifies s
    ensures p == |name| && s[..p] == Bang(name) && s[p] == '\0' && CString(Bang(name))
  {
    p := 0;
    assert forall i :: 0 <= i < |name| ==> s[..|name|][i] == name[i];
    while s[p] != '\0'
      invariant 0 <= p <= |name| && s[|name|] == '\0'
      invariant forall i :: 0 <= i < p ==> s[i] == Bang(name)[i]
      invariant forall i :: p <= i < |name| ==> s[i] == name[i]
      decreases |name| - p
    {
      if s[p] == '/' { s[p] := '!'; }
      p := p + 1;
    }
  }

  /** while (p > s && isdigit(p[-1])) p--; */
  method BackOverDigits(s: array<char>, ghost t: string, end: nat) returns (p: nat)
    requires end == |t| < s.Length && s[..end] == t
    ensures p == Stem(t)
  {
    p := end;
    while p > 0 && IsDigit(s[p - 1])
      invariant 0 <= p <= end && Stem(t) == Stem(t[..p])
    {
      assert t[..p][..p - 1] == t[..p - 1] && t[..p][p - 1] == s[..end][p - 1];
      p := p - 1;
    }
    if p > 0 { assert t[..p][p - 1] == s[..end][p - 1]; }
  }

  lemma WrapStep(v: nat, d: nat)
    ensures (10 * (v % 0x1_0000_0000) + d) % 0x1_0000_0000 == (10 * v + d) % 0x1_0000_0000
  {
    var q, r := v / 0x1_0000_0000, v % 0x1_0000_0000;
    assert 10 * v + d == 10 * r + d + 10 * q * 0x1_0000_0000;
    Modulo.AddMultiple(10 * r + d, 10 * q, 0x1_0000_0000);
  }

  /** simple_strtoul in base 10 on a string of digits, stored in an int. */
  method ToInt(s: array<char>, from: nat, end: nat) returns (part: int)
    requires from <= end <= s.Length && Digits(s[from..end])
    ensures part == Wrapped(Value(s[from..end]))
  {
    var digits := s[from..end];
    var u, p := 0, from;
    while p < end
      invariant from <= p <= end && Digits(digits[..p - from])
      invariant u == Value(digits[..p - from]) % 0x1_0000_0000
    {
      var k := p - from;
      assert digits[..k + 1][..k] == digits[..k] && digits[..k + 1][k] == s[p] == digits[k];
      WrapStep(Value(digits[..k]), Digit(s[p]));
      u := (10 * u + Digit(s[p])) % 0x1_0000_0000;
      p := p + 1;
    }
    assert digits[..end - from] == digits;
    part := if u < 0x8000_0000 then u else u - 0x1_0000_0000;
  }

  /** name_to_dev_t for a name that starts with "/dev/". */
  method NameToDevT(disks: Disks, path: string) returns (res: nat)
    requires CString(path) && |path| >= 5 && path[..5] == "/dev/"
    ensures res == Interpret(disks, path[5..])
  {
    var name := path[5..];
    if name == "nfs" { return ROOT_NFS; }
    if name == "ram" { return ROOT_RAM0; }
    if |name| > 31 { return 0; }
    var s := new char[32];
    forall i | 0 <= i < |name| { s[i] := name[i]; }
    s[|name|] := '\0';
    assert s[..|name|] == name;
    var p := BangInPlace(s, name);
    res := LookUpName(disks, s, p, Bang(name));
  }

  /** The rest of name_to_dev_t: the buffer holds the kernel's form of the name. */
  method LookUpName(disks: Disks, s: array<char>, end: nat, ghost t: string) returns (res: nat)
    requires CString(t) && end == |t| < s.Length && s[..|t|] == t && s[|t|] == '\0'
    modifies s
    ensures res == Resolve(disks, t)
  {
    hide Stem, Value, Lookup, Wrapped;
    ContentsIs(s[..], |t|);
    assert s[..][..|t|] == t;
    res := Lookup(disks, Contents(s[..]), 0);
    if res != 0 { return; }
    var p := BackOverDigits(s, t, end);
    assert p < end ==> s[p] == s[..end][p] == t[p];
    if p == 0 || s[p] == '\0' || s[p] == '0' { return 0; }
    assert s[p..end] == t[p..];
    var part := ToInt(s, p, end);
    assert s[..p] == t[..p];
    s[p] := '\0';
    res := LookupPart(disks, s, t, p, part);
  }

  /** The two lookups with a partition number; the buffer holds the stem. */
  method LookupPart(disks: Disks, s: array<char>, ghost t: string, p: nat, part: int) returns (res: nat)
    requires CString(t) && 0 < p <= |t| && p < s.Length && s[..p] == t[..p] && s[p] == '\0'
    modifies s
    ensures var stem := t[..p];
            res == if Lookup(disks, stem, part) != 0 then Lookup(disks, stem, part)
                   else if p >= 2 && IsDigit(stem[p - 2]) && stem[p - 1] == 'p' then Lookup(disks, stem[..p - 1], part)
                   else 0
  {
    assert forall i :: 0 <= i < p ==> s[..p][i] == t[..p][i];
    ContentsIs(s[..], p);
    assert s[..][..p] == t[..p];
    res := Lookup(disks, Contents(s[..]), part);
    if res != 0 { return; }
    if p < 2 || !IsDigit(s[p - 2]) || s[p - 1] != 'p' { return 0; }
    s[p - 1] := '\0';
    ContentsIs(s[..], p - 1);
    assert s[..][..p - 1] == t[..p][..p - 1];
    res := Lookup(disks, Contents(s[..]), part);
  }

  // ----- names come back ------------------------------------------------------------------------------------

  /** n in decimal. */
  function Decimal(n: nat): (s: string)
    ensures |s| > 0 && Digits(s)
  {
    var last := ('0' as int + n % 10) as char;
    if n < 10 then [last] else Decimal(n / 10) + [last]
  }

  lemma {:induction false} DecimalReads(n: nat)
    ensures Value(Decimal(n)) == n && (n > 0 ==> Decimal(n)[0] != '0')
  {
    if n >= 10 {
      DecimalReads(n / 10);
      assert Decimal(n)[..|Decimal(n)| - 1] == Decimal(n / 10);
    } else {
      assert Decimal(n)[..0] == "";
    }
  }

  /** Digits behind a name that does not end in one are all of its trailing digits. */
  lemma {:induction false} StemOf(x: string, digits: string)
    requires Digits(digits)
    requires x == "" || !IsDigit(x[|x| - 1])
    ensures Stem(x + digits) == |x|
    decreases |digits|
  {
    if digits == "" {
      assert x + digits == x;
    } else {
      var d := digits[..|digits| - 1];
      assert (x + digits)[..|x + digits| - 1] == x + d;
      StemOf(x, d);
    }
  }

  lemma BangOf(x: string, digits: string)
    requires Digits(digits)
    ensures Bang(x + digits) == Bang(x) + digits
  {
  }

  /** The kernel knows the disk /dev/x by this name: x with a bang for every slash. */
  predicate KernelName(x: string, disk: string) {
    |disk| == |x| && forall i :: 0 <= i < |x| ==> disk[i] == if x[i] == '/' then '!' else x[i]
  }

  lemma KernelNameIs(x: string, disk: string)
    ensures KernelName(x, disk) <==> disk == Bang(x)
  {
  }

  /** A partition number survives exactly if it fits an int; otherwise it is cut to 32 bits and read as signed. */
  lemma WrappedIff(n: nat)
    ensures Wrapped(n) == n <==> n < 0x8000_0000
    ensures -0x8000_0000 <= Wrapped(n) < 0x8000_0000 && (n - Wrapped(n)) % 0x1_0000_0000 == 0
  {
    var q, u := n / 0x1_0000_0000, n % 0x1_0000_0000;
    assert n == q * 0x1_0000_0000 + u;
    Modulo.MultipleMod(q, 0x1_0000_0000);
    Modulo.MultipleMod(q + 1, 0x1_0000_0000);
  }

  /** The names that stand for no disk, and the ones that are too long for the buffer. */
  lemma ReservedAndTooLong(disks: Disks, x: string)
    ensures Interpret(disks, "nfs") == 0xff && Interpret(disks, "ram") == 0x100000
    ensures |x| > 31 ==> Interpret(disks, x) == 0
  {
  }

  /** /dev/<disk><n> for a disk that does not end in a digit: unless the whole name is that of a disk, the partition's
      device number comes back, if there is one. Beyond 31 bits the partition number wraps. */
  lemma PartitionOfDisk(disks: Disks, x: string, disk: string, n: nat)
    requires KernelName(x, disk)
    requires x != "" && !IsDigit(x[|x| - 1]) && n >= 1 && |x + Decimal(n)| <= 31
    requires Lookup(disks, disk + Decimal(n), 0) == 0 && Lookup(disks, disk, Wrapped(n)) != 0
    ensures Interpret(disks, x + Decimal(n)) == Lookup(disks, disk, if n < 0x8000_0000 then n else Wrapped(n))
  {
    var d := Decimal(n);
    var s := Bang(x) + d;
    KernelNameIs(x, disk);
    WrappedIff(n);
    BangOf(x, d);
    DecimalReads(n);
    StemOf(Bang(x), d);
    NotReserved(x, n);
    assert s[..|x|] == Bang(x) && s[|x|..] == d;
    hide Decimal, Value, Stem, Bang;
  }

  /** /dev/<disk>p<n> for a disk that ends in a digit: unless the whole name, or all of it but the number, is that of
      a disk, the partition's number comes back. */
  lemma PartitionOfNumberedDisk(disks: Disks, x: string, disk: string, n: nat)
    requires KernelName(x, disk)
    requires x != "" && IsDigit(x[|x| - 1]) && n >= 1 && |x + "p" + Decimal(n)| <= 31
    requires Lookup(disks, disk + "p" + Decimal(n), 0) == 0 && Lookup(disks, disk + "p", Wrapped(n)) == 0
    ensures Interpret(disks, x + "p" + Decimal(n)) == Lookup(disks, disk, if n < 0x8000_0000 then n else Wrapped(n))
  {
    hide *;
    KernelNameIs(x, disk);
    WrappedIff(n);
    BangedNumber(disks, x, n);
  }

  lemma BangedNumber(disks: Disks, x: string, n: nat)
    requires x != "" && IsDigit(x[|x| - 1]) && n >= 1 && |x + "p" + Decimal(n)| <= 31
    requires Lookup(disks, Bang(x) + "p" + Decimal(n), 0) == 0 && Lookup(disks, Bang(x) + "p", Wrapped(n)) == 0
    ensures Interpret(disks, x + "p" + Decimal(n)) == Lookup(disks, Bang(x), Wrapped(n))
  {
    var d, y := Decimal(n), x + "p";
    BangOf(y, d);
    assert Bang(y) == Bang(x) + "p";
    var s := Bang(y) + d;
    DecimalReads(n);
    StemOf(Bang(y), d);
    NotReserved(y, n);
    assert s[..|y|] == Bang(y) && s[|y|..] == d && Bang(y)[..|y| - 1] == Bang(x);
    assert Bang(y)[|y| - 2] == x[|x| - 1];
    hide Decimal, Value, Stem, Bang;
  }

  /** The reserved names do not end in a digit. */
  lemma NotReserved(x: string, n: nat)
    ensures x + Decimal(n) != "nfs" && x + Decimal(n) != "ram"
  {
    var s := x + Decimal(n);
    assert IsDigit(s[|s| - 1]);
    hide Decimal;
  }

  /** A disk's own name comes first, whatever it ends in. */
  lemma WholeDisk(disks: Disks, x: string, disk: string)
    requires x != "nfs" && x != "ram" && |x| <= 31 && KernelName(x, disk) && Lookup(disks, disk, 0) != 0
    ensures Interpret(disks, x) == Lookup(disks, disk, 0)
  {
    KernelNameIs(x, disk);
  }

  /** A partition number with a leading zero is never accepted. */
  lemma LeadingZeroRefused(disks: Disks, x: string, disk: string, digits: string)
    requires KernelName(x, disk)
    requires x != "" && !IsDigit(x[|x| - 1]) && Digits(digits)
    requires Lookup(disks, disk + "0" + digits, 0) == 0
    ensures Interpret(disks, x + "0" + digits) == 0
  {
    var d := "0" + digits;
    KernelNameIs(x, disk);
    assert x + "0" + digits == x + d && Bang(x) + "0" + digits == Bang(x) + d;
    BangOf(x, d);
    StemOf(Bang(x), d);
    var name := x + d;
    assert IsDigit(name[|name| - 1]);
    hide Stem, Bang;
  }

  /** Digits without a leading zero are the decimal form of their value. */
  lemma {:induction false} DecimalOfValue(digits: string)
    requires Digits(digits) && digits != "" && digits[0] != '0'
    ensures Value(digits) >= 1 && Decimal(Value(digits)) == digits
  {
    var last := |digits| - 1;
    var rest := digits[..last];
    var d := Digit(digits[last]);
    assert ('0' as int + d) as char == digits[last];
    assert digits == rest + [digits[last]];
    if rest != "" { DecimalOfValue(rest); }
  }

  /** What is found under a name in the kernel's form is a disk, or a disk's partition. */
  lemma ResolveFinds(disks: Disks, s: string) returns (disk: string, n: nat)
    requires Resolve(disks, s) != 0
    ensures n == 0 ==> disk == s && Resolve(disks, s) == Lookup(disks, s, 0)
    ensures n > 0 ==>
              && Resolve(disks, s) == Lookup(disks, disk, Wrapped(n)) && disk != ""
              && s == disk + (if IsDigit(disk[|disk| - 1]) then "p" else "") + Decimal(n)
  {
    hide Decimal, Value, Stem, Wrapped, Lookup;
    var k := Stem(s);
    if Lookup(disks, s, 0) != 0 { return s, 0; }
    n := Value(s[k..]);
    DecimalOfValue(s[k..]);
    if Lookup(disks, s[..k], Wrapped(n)) != 0 {
      disk := s[..k];
      CutOnce(s, k);
    } else {
      disk := s[..k - 1];
      CutTwice(s, k);
    }
  }

  lemma CutOnce(s: string, k: nat)
    requires k <= |s|
    ensures s == s[..k] + "" + s[k..]
  {
  }

  lemma CutTwice(s: string, k: nat)
    requires 2 <= k <= |s| && s[..k][k - 1] == 'p'
    ensures s == s[..k - 1] + "p" + s[k..] && s[..k - 1][k - 2] == s[..k][k - 2] && s[..k][..k - 1] == s[..k - 1]
  {
  }

  lemma InterpretIsResolve(disks: Disks, x: string)
    requires Interpret(disks, x) != 0 && x != "nfs" && x != "ram"
    ensures |x| <= 31 && Interpret(disks, x) == Resolve(disks, Bang(x))
  {
  }

  /** Nothing else is ever found: a name that leads to a device is a disk's own (n is 0), or a disk's that does not end
      in a digit with the number n behind it, or a disk's that does with p and n behind it. */
  lemma OnlyTheseNames(disks: Disks, x: string) returns (disk: string, n: nat)
    requires Interpret(disks, x) != 0 && x != "nfs" && x != "ram"
    ensures |x| <= 31
    ensures n == 0 ==> KernelName(x, disk) && Interpret(disks, x) == Lookup(disks, disk, 0)
    ensures n > 0 ==>
              && Interpret(disks, x) == Lookup(disks, disk, if n < 0x8000_0000 then n else Wrapped(n))
              && disk != ""
              && KernelName(x, disk + (if IsDigit(disk[|disk| - 1]) then "p" else "") + Decimal(n))
  {
    hide *;
    InterpretIsResolve(disks, x);
    disk, n := ResolveFinds(disks, Bang(x));
    KernelNameIs(x, Bang(x));
    WrappedIff(n);
  }
}
