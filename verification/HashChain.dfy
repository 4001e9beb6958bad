/**
 * The measured-boot hash chain: every component is hashed as it is read, and each measurement is
 * folded into a running digest. The hash function is a parameter; nothing is assumed about it.
 */
module HashChain {
  import opened Words

  const SHA256_LEN: nat := 32
  const READ_CHUNK: nat := 4096

  type Digest = s: seq<byte> | |s| == 32 witness seq(32, _ => 0)
  type Hash = seq<byte> -> Digest

  /** The initial chain: 32 zero bytes. */
  function ZeroDigest(): Digest {
    seq(SHA256_LEN, _ => 0)
  }

  // ------------------------------------------------------------------ the fold

  /** The digest after measuring `images` in order, starting from 32 zero bytes. */
  function Chain(H: Hash, images: seq<seq<byte>>): Digest {
    ChainFrom(H, ZeroDigest(), images)
  }

  /** Continue a chain with further images. */
  function ChainFrom(H: Hash, chain: Digest, images: seq<seq<byte>>): Digest
    decreases |images|
  {
    if images == [] then chain
    else H(ChainFrom(H, chain, images[..|images| - 1]) + H(images[|images| - 1]))
  }

  /** The chain starts with 32 zero bytes, and each image makes it the hash of chain and image hash. */
  lemma ChainExtends(H: Hash, images: seq<seq<byte>>, image: seq<byte>, i: nat)
    requires i < 32
    ensures Chain(H, [])[i] == 0
    ensures Chain(H, images + [image]) == H(Chain(H, images) + H(image))
  {
    assert (images + [image])[..|images|] == images;
    assert Chain(H, []) == ZeroDigest();
  }

  /** Measuring A and then B is continuing with B from the digest of A. */
  lemma {:induction false} ChainContinues(H: Hash, a: seq<seq<byte>>, b: seq<seq<byte>>)
    ensures Chain(H, a + b) == ChainFrom(H, Chain(H, a), b)
    decreases |b|
  {
    if b == [] {
      assert a + b == a;
    } else {
      var last := |b| - 1;
      assert (a + b)[..|a| + last] == a + b[..last];
      ChainContinues(H, a, b[..last]);
    }
  }

  /** What two runs that end in the same digest tell about their inputs. */
  datatype Finding =
    | SameSequence
    | Collision(x: seq<byte>, y: seq<byte>)
    | ZeroPreimage(x: seq<byte>)

  ghost predicate Substantiated(H: Hash, a: seq<seq<byte>>, b: seq<seq<byte>>, f: Finding) {
    match f
    case SameSequence => a == b
    case Collision(x, y) => x != y && H(x) == H(y)
    case ZeroPreimage(x) => |a| != |b| && |x| == 64 && H(x) == ZeroDigest()
  }

  /** Walk both sequences from the end; stop at the first place where the hash inputs differ. */
  function Explain(H: Hash, a: seq<seq<byte>>, b: seq<seq<byte>>): Finding
    decreases |a|
  {
    if a == [] && b == [] then SameSequence
    else if a == [] then ZeroPreimage(LastInput(H, b))
    else if b == [] then ZeroPreimage(LastInput(H, a))
    else if LastInput(H, a) != LastInput(H, b) then Collision(LastInput(H, a), LastInput(H, b))
    else if a[|a| - 1] != b[|b| - 1] then Collision(a[|a| - 1], b[|b| - 1])
    else Explain(H, a[..|a| - 1], b[..|b| - 1])
  }

  /** The 64 bytes hashed by the last extension of a non-empty sequence. */
  function LastInput(H: Hash, images: seq<seq<byte>>): (r: seq<byte>)
    requires images != []
    ensures |r| == 64
  {
    Chain(H, images[..|images| - 1]) + H(images[|images| - 1])
  }

  /**
   * "This digest only proves the measured sequence": equal digests mean equal sequences, or `Explain`
   * hands over a collision, or, for runs of different length, a preimage of the initial value.
   */
  lemma {:induction false} EqualDigestsExplained(H: Hash, a: seq<seq<byte>>, b: seq<seq<byte>>)
    requires Chain(H, a) == Chain(H, b)
    ensures Substantiated(H, a, b, Explain(H, a, b))
    decreases |a|
  {
    if a != [] && b != [] && LastInput(H, a) == LastInput(H, b) && a[|a| - 1] == b[|b| - 1] {
      var a', b' := a[..|a| - 1], b[..|b| - 1];
      assert Chain(H, a') == LastInput(H, a)[..32] == LastInput(H, b)[..32] == Chain(H, b');
      EqualDigestsExplained(H, a', b');
      assert a == a' + [a[|a| - 1]] && b == b' + [b[|b| - 1]];
    } else if a != [] && b != [] && LastInput(H, a) == LastInput(H, b) {
      assert H(a[|a| - 1]) == LastInput(H, a)[32..] == LastInput(H, b)[32..] == H(b[|b| - 1]);
    }
  }

  /** For runs of equal length, confusable sequences exist exactly when the hash has collisions. */
  lemma ConfusableIffCollision(H: Hash)
    ensures (exists a: seq<seq<byte>>, b: seq<seq<byte>> :: |a| == |b| && a != b && Chain(H, a) == Chain(H, b))
            <==> exists x: seq<byte>, y: seq<byte> :: x != y && H(x) == H(y)
  {
    if a: seq<seq<byte>>, b: seq<seq<byte>> :| |a| == |b| && a != b && Chain(H, a) == Chain(H, b) {
      EqualDigestsExplained(H, a, b);
      var Collision(x, y) := Explain(H, a, b);
      assert x != y && H(x) == H(y);
    }
    if x: seq<byte>, y: seq<byte> :| x != y && H(x) == H(y) {
      ChainOfOne(H, x);
      ChainOfOne(H, y);
      assert [x][0] != [y][0];
    }
  }

  lemma ChainOfOne(H: Hash, image: seq<byte>)
    ensures Chain(H, [image]) == H(ZeroDigest() + H(image))
  {
    assert [image][..0] == [] && ChainFrom(H, ZeroDigest(), []) == ZeroDigest();
  }

  // ------------------------------------------------------------------ hexadecimal output

  function HexDigit(n: nat): (c: char)
    requires n < 16
    ensures '0' <= c <= '9' || 'a' <= c <= 'f'
  {
    "0123456789abcdef"[n]
  }

  /** `%02x`. */
  function HexByte(b: byte): (r: string)
    ensures |r| == 2 && '\n' !in r
  {
    [HexDigit(b / 16), HexDigit(b % 16)]
  }

  lemma HexByteInjective(a: byte, b: byte)
    requires HexByte(a) == HexByte(b)
    ensures a == b
  {
    assert HexByte(a)[0] == HexByte(b)[0] && HexByte(a)[1] == HexByte(b)[1];
    HexDigitInjective(a / 16, b / 16);
    HexDigitInjective(a % 16, b % 16);
  }

  /** Two digits for every byte. */
  function Hex(bytes: seq<byte>): string {
    if bytes == [] then ""
    else
      var last := |bytes| - 1;
      Hex(bytes[..last]) + HexByte(bytes[last])
  }

  lemma HexDigitInjective(m: nat, n: nat)
    requires m < 16 && n < 16 && HexDigit(m) == HexDigit(n)
    ensures m == n
  {
  }

  /** A printed line determines the bytes it was printed from. */
  lemma {:induction false} HexInjective(a: seq<byte>, b: seq<byte>)
    requires Hex(a) == Hex(b)
    ensures a == b
    decreases |a|
  {
    if a != [] && b != [] {
      var i, j := |a| - 1, |b| - 1;
      var s := Hex(a);
      assert s[..|s| - 2] == Hex(a[..i]) && s[..|s| - 2] == Hex(b[..j]);
      HexInjective(a[..i], b[..j]);
      assert s[|s| - 2..] == HexByte(a[i]) && s[|s| - 2..] == HexByte(b[j]);
      HexByteInjective(a[i], b[j]);
      assert a == a[..i] + [a[i]] && b == b[..j] + [b[j]];
    }
  }

  /** What a hexadecimal digit stands for. */
  function DigitValue(c: char): int {
    if '0' <= c <= '9' then c as int - '0' as int
    else if 'a' <= c <= 'f' then c as int - 'a' as int + 10
    else -1
  }

  lemma DigitOf(n: nat)
    requires n < 16
    ensures DigitValue(HexDigit(n)) == n
  {
  }

  lemma HexByteDigits(b: byte)
    ensures DigitValue(HexByte(b)[0]) == b / 16 && DigitValue(HexByte(b)[1]) == b % 16
  {
    DigitOf(b / 16);
    DigitOf(b % 16);
  }

  lemma {:induction false} HexSnoc(bytes: seq<byte>)
    requires bytes != []
    ensures var last := |bytes| - 1;
            |Hex(bytes)| == 2 * |bytes| && Hex(bytes)[..2 * last] == Hex(bytes[..last]) &&
            Hex(bytes)[2 * last] == HexByte(bytes[last])[0] && Hex(bytes)[2 * last + 1] == HexByte(bytes[last])[1]
    decreases |bytes|
  {
    var last := |bytes| - 1;
    if last > 0 {
      HexSnoc(bytes[..last]);
    }
    assert Hex(bytes) == Hex(bytes[..last]) + HexByte(bytes[last]);
  }

  /** The digits of byte i stand at 2 * i and 2 * i + 1, the upper half first. */
  predicate DigitsAt(text: string, from: nat, bytes: seq<byte>, i: nat)
    requires i < |bytes|
  {
    && from + 2 * i + 2 <= |text|
    && DigitValue(text[from + 2 * i]) == bytes[i] / 16
    && DigitValue(text[from + 2 * i + 1]) == bytes[i] % 16
  }

  lemma {:induction false} HexDigits(bytes: seq<byte>, i: nat)
    requires i < |bytes|
    ensures |Hex(bytes)| == 2 * |bytes| && DigitsAt(Hex(bytes), 0, bytes, i)
    decreases |bytes|
  {
    var last := |bytes| - 1;
    HexSnoc(bytes);
    HexByteDigits(bytes[last]);
    if i < last {
      HexDigits(bytes[..last], i);
    }
  }

  /** Read pairs of digits back into numbers. */
  function Unhex(text: string): seq<int> {
    seq(|text| / 2, i requires 0 <= i < |text| / 2 => 16 * DigitValue(text[2 * i]) + DigitValue(text[2 * i + 1]))
  }

  lemma UnhexHex(bytes: seq<byte>)
    ensures Unhex(Hex(bytes)) == bytes
  {
    HexLength(bytes);
    var numbers := Unhex(Hex(bytes));
    forall i | 0 <= i < |bytes| ensures numbers[i] == bytes[i] {
      HexDigits(bytes, i);
    }
  }

  lemma HexLength(bytes: seq<byte>)
    ensures |Hex(bytes)| == 2 * |bytes|
  {
    if bytes != [] {
      HexSnoc(bytes);
    }
  }

  /** In a printed line the digits of byte i follow the label, its upper one first. */
  lemma LineDigits(heading: string, buf: seq<byte>, line: string, i: nat)
    requires line == heading + Hex(buf) + "\n" && i < |buf|
    ensures DigitsAt(line, |heading|, buf, i)
  {
    HexDigits(buf, i);
    assert line[|heading| + 2 * i] == Hex(buf)[2 * i] && line[|heading| + 2 * i + 1] == Hex(buf)[2 * i + 1];
  }

  /** A printed line begins with the label, ends with a newline, and decodes to the bytes. */
  lemma HexLine(heading: string, buf: seq<byte>, line: string)
    requires line == heading + Hex(buf) + "\n"
    ensures |line| == |heading| + 2 * |buf| + 1 && heading <= line && line[|line| - 1] == '\n'
    ensures Unhex(line[|heading|..|line| - 1]) == buf
  {
    HexLength(buf);
    UnhexHex(buf);
    assert line[|heading|..|line| - 1] == Hex(buf);
  }

  /** `print_hex`: the label, for every byte its upper and its lower digit, and a newline. */
  method PrintHex(heading: string, buf: seq<byte>) returns (line: string)
    ensures line == heading + Hex(buf) + "\n"
  {
    line := heading;
    var i := 0;
    while i < |buf|
      invariant i <= |buf| && line == heading + Hex(buf[..i])
    {
      assert buf[..i + 1][..i] == buf[..i];
      line := line + HexByte(buf[i]);
      i := i + 1;
    }
    assert buf[..i] == buf;
    line := line + "\n";
  }

  // ------------------------------------------------------------------ reading and hashing a file

  /** What the process holds open, and how many of its library calls have failed. */
  class Process {
    var files: nat
    var contexts: nat
    ghost var failures: nat

    /** A call that may fail. */
    method Call() returns (ok: bool)
      modifies this`failures
      ensures failures == old(failures) + if ok then 0 else 1
    {
      ok := *;
      if !ok {
        failures := failures + 1;
      }
    }
  }

  /** A file opened for reading; its content does not change while it is read. */
  class Stream {
    const content: seq<byte>
    const process: Process
    var position: nat
    var error: bool

    constructor (content: seq<byte>, process: Process)
      ensures this.content == content && this.process == process && position == 0 && !error
    {
      this.content, this.process, position, error := content, process, 0, false;
    }

    /**
     * `fread` of single bytes: any part of what is left. It is empty only at the end of the file or on an
     * error; an error may also cut a read short, and stays set.
     */
    method Fread(capacity: nat) returns (chunk: seq<byte>)
      requires position <= |content| && capacity > 0
      modifies this, process`failures
      ensures position <= |content| && old(position) <= position
      ensures chunk == content[old(position)..position] && |chunk| <= capacity
      ensures chunk == [] ==> error || position == |content|
      ensures old(error) ==> error
      ensures process.failures >= old(process.failures)
      ensures process.failures == old(process.failures) ==> error == old(error)
      ensures process.failures > old(process.failures) ==> error
    {
      var n: int := *;
      var ok := process.Call();
      error := error || !ok;
      var least := if error then 0 else 1;
      n := if n < least then least else if n > capacity then capacity else n;
      n := if n > |content| - position then |content| - position else n;
      chunk := content[position..position + n];
      position := position + n;
    }
  }

  /** An EVP digest context: the bytes absorbed since its initialisation. Every call may fail. */
  class DigestContext {
    const H: Hash
    const process: Process
    var absorbed: seq<byte>

    constructor (H: Hash, process: Process)
      ensures this.H == H && this.process == process
    {
      this.H, this.process := H, process;
      absorbed := *;
    }

    method Init() returns (ok: bool)
      modifies this, process`failures
      ensures ok ==> absorbed == []
      ensures process.failures == old(process.failures) + if ok then 0 else 1
    {
      absorbed := [];
      ok := process.Call();
    }

    method Update(bytes: seq<byte>) returns (ok: bool)
      modifies this, process`failures
      ensures ok ==> absorbed == old(absorbed) + bytes
      ensures process.failures == old(process.failures) + if ok then 0 else 1
    {
      absorbed := absorbed + bytes;
      ok := process.Call();
    }

    /** A digest of another length counts as a failure. */
    method Final() returns (ok: bool, out: seq<byte>)
      modifies process`failures
      ensures ok && |out| == SHA256_LEN ==> out == H(absorbed)
      ensures process.failures ==
              old(process.failures) + if ok && |out| == SHA256_LEN then 0 else 1
    {
      ok := process.Call();
      out := H(absorbed);
      var short: bool := *;
      if ok && short {
        out := [];
        process.failures := process.failures + 1;
      }
    }
  }

  /**
   * `sha256_file`: however the reads split the file, it yields the hash of its whole content, exactly if
   * the file can be opened and no call fails; and every path closes the file and frees the context.
   */
  method Sha256File(H: Hash, process: Process, file: Option<seq<byte>>) returns (digest: Option<Digest>)
    modifies process
    ensures digest.Some? <==> file.Some? && process.failures == old(process.failures)
    ensures digest.Some? ==> digest.value == H(file.value)
    ensures process.failures >= old(process.failures)
    ensures process.files == old(process.files) && process.contexts == old(process.contexts)
  {
    digest := None;
    if file.None? {
      return;
    }
    var fp := new Stream(file.value, process);
    process.files := process.files + 1;
    var granted := process.Call();
    if granted {
      var ctx := new DigestContext(H, process);
      process.contexts := process.contexts + 1;
      digest := HashStream(ctx, fp);
      process.contexts := process.contexts - 1;
    }
    process.files := process.files - 1;
  }

  /** The part between allocating the context and freeing it. */
  method HashStream(ctx: DigestContext, fp: Stream) returns (digest: Option<Digest>)
    requires fp.position == 0 && !fp.error && ctx.process == fp.process
    modifies ctx, fp, fp.process`failures
    ensures digest.Some? <==> fp.process.failures == old(fp.process.failures)
    ensures digest.Some? ==> digest.value == ctx.H(fp.content)
    ensures fp.process.failures >= old(fp.process.failures)
  {
    var ok := ctx.Init();
    if !ok {
      return None;
    }
    var chunk := fp.Fread(READ_CHUNK);
    while chunk != []
      invariant fp.position <= |fp.content|
      invariant fp.process.failures >= old(fp.process.failures)
      invariant fp.error <==> fp.process.failures != old(fp.process.failures)
      invariant ctx.absorbed + chunk == fp.content[..fp.position]
      invariant chunk == [] ==> fp.error || fp.position == |fp.content|
      decreases |fp.content| - fp.position, |chunk|
    {
      ok := ctx.Update(chunk);
      if !ok {
        return None;
      }
      chunk := fp.Fread(READ_CHUNK);
    }
    if fp.error {
      return None;
    }
    var out;
    ok, out := ctx.Final();
    if !ok || |out| != SHA256_LEN {
      return None;
    }
    assert ctx.absorbed == fp.content;
    return Some(out);
  }

  /** `extend_chain`: it yields the hash of chain and measurement exactly if no call fails. */
  method ExtendChain(H: Hash, process: Process, chain: Digest, measurement: Digest) returns (next: Option<Digest>)
    modifies process
    ensures next.Some? <==> process.failures == old(process.failures)
    ensures next.Some? ==> next.value == H(chain + measurement)
    ensures process.failures >= old(process.failures)
    ensures process.files == old(process.files) && process.contexts == old(process.contexts)
  {
    next := None;
    var granted := process.Call();
    if !granted {
      return;
    }
    var ctx := new DigestContext(H, process);
    process.contexts := process.contexts + 1;
    var ok := ctx.Init();
    if ok {
      ok := ctx.Update(chain);
    }
    if ok {
      ok := ctx.Update(measurement);
    }
    if ok {
      var out;
      ok, out := ctx.Final();
      if ok && |out| == SHA256_LEN {
        assert [] + chain + measurement == chain + measurement;
        next := Some(out);
      }
    }
    process.contexts := process.contexts - 1;
  }
}
