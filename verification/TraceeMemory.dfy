// Moving strings between the tracer and the tracee, one machine word at a time.
module TraceeMemory {
  import opened Bytes

  const WORD := 8
  const PATH_MAX := 4096
  /** Bytes below the stack pointer that the ABI lets leaf functions use. */
  const RED_ZONE := 128

  type Memory = map<int, Byte>

  predicate Mapped(mem: Memory, addr: int, len: nat) {
    forall a :: addr <= a < addr + len ==> a in mem
  }

  function Load(mem: Memory, addr: int, len: nat): (s: seq<Byte>)
    requires Mapped(mem, addr, len)
    ensures |s| == len
  {
    seq(len, i requires 0 <= i < len => mem[addr + i])
  }

  function Store(mem: Memory, addr: int, bytes: seq<Byte>): Memory {
    map a | a in mem :: if addr <= a < addr + |bytes| then bytes[a - addr] else mem[a]
  }

  predicate NulFree(s: seq<Byte>) {
    forall i :: 0 <= i < |s| ==> s[i] != 0
  }

  /** The bytes s are in memory at addr. */
  ghost predicate Holds(mem: Memory, addr: int, s: seq<Byte>) {
    Mapped(mem, addr, |s|) && forall a :: addr <= a < addr + |s| ==> mem[a] == s[a - addr]
  }

  /** A NUL-terminated string starts at addr. */
  ghost predicate HoldsString(mem: Memory, addr: int, s: seq<Byte>) {
    NulFree(s) && Holds(mem, addr, s + [0])
  }

  /** The number of bytes both transfers touch for a string of n characters. */
  function Extent(n: nat): nat {
    WORD * (n / WORD + 1)
  }

  /** Where a replacement is placed: below the red zone, with room for the longest path. */
  function Scratch(rsp: int): int {
    rsp - (RED_ZONE + PATH_MAX)
  }

  /** Only the extent of the string at base changed, and it now holds the string and its terminator. */
  ghost predicate Wrote(before: Memory, after: Memory, base: int, s: seq<Byte>) {
    && after.Keys == before.Keys
    && Holds(after, base, s + [0])
    && forall a :: a in before && !(base <= a < base + Extent(|s|)) ==> after[a] == before[a]
  }

  /** At most one string starts at an address. */
  lemma StringUnique(mem: Memory, addr: int, s: seq<Byte>, t: seq<Byte>)
    requires HoldsString(mem, addr, s) && HoldsString(mem, addr, t)
    ensures s == t
  {
    assert mem[addr + |s|] == 0 && mem[addr + |t|] == 0;
    assert forall a :: addr <= a < addr + |s| ==> mem[a] == s[a - addr];
    assert forall a :: addr <= a < addr + |t| ==> mem[a] == t[a - addr];
    forall i | 0 <= i < |s| ensures s[i] == t[i] {
      assert mem[addr + i] == (s + [0])[i] == (t + [0])[i];
    }
  }

  /** PTRACE_PEEKDATA: where part of the word is not mapped it fails, and its -1 is taken for data. */
  function PeekWord(mem: Memory, addr: int): (word: seq<Byte>)
    ensures |word| == WORD
  {
    if Mapped(mem, addr, WORD) then Load(mem, addr, WORD) else seq(WORD, _ => 0xff)
  }

  function WordAt(mem: Memory, addr: int, w: nat): (word: seq<Byte>)
    ensures |word| == WORD
  {
    PeekWord(mem, addr + WORD * w)
  }

  /** The first `words` words, one after the other. */
  function Words(mem: Memory, addr: int, words: nat): (s: seq<Byte>)
    ensures |s| == WORD * words
  {
    if words == 0 then [] else Words(mem, addr, words - 1) + WordAt(mem, addr, words - 1)
  }

  lemma WordAtMeans(mem: Memory, addr: int, w: nat)
    ensures WordAt(mem, addr, w) == PeekWord(mem, addr + WORD * w)
  {
  }

  lemma WordsStep(mem: Memory, addr: int, words: nat)
    ensures Words(mem, addr, words + 1) == Words(mem, addr, words) + WordAt(mem, addr, words)
  {
  }

  function UpToNul(s: seq<Byte>): (t: seq<Byte>)
    ensures t <= s && NulFree(t)
    ensures |t| < |s| ==> s[|t|] == 0
  {
    if s == [] || s[0] == 0 then [] else [s[0]] + UpToNul(s[1..])
  }

  /** Word number `words` is the first with a NUL in it. */
  predicate EndsAfter(mem: Memory, addr: int, words: nat) {
    && (forall w :: 0 <= w < words ==> NulFree(WordAt(mem, addr, w)))
    && !NulFree(WordAt(mem, addr, words))
  }

  /** What reading until then yields. */
  function Peeked(mem: Memory, addr: int, words: nat): seq<Byte> {
    Words(mem, addr, words) + UpToNul(WordAt(mem, addr, words))
  }

  lemma {:induction false} WordsOfString(mem: Memory, addr: int, s: seq<Byte>, words: nat)
    requires HoldsString(mem, addr, s) && WORD * words <= |s|
    ensures Words(mem, addr, words) == s[..WORD * words]
    ensures words > 0 ==> NulFree(WordAt(mem, addr, words - 1))
  {
    hide HoldsString, WordAt, PeekWord, Words, NulFree;
    if words == 0 {
      NoWords(mem, addr);
    } else {
      var n := WORD * (words - 1);
      WordsOfString(mem, addr, s, words - 1);
      WordOfString(mem, addr, s, n);
      WordAtMeans(mem, addr, words - 1);
      WordsStep(mem, addr, words - 1);
      StringIsNulFree(mem, addr, s);
      NulFreeSlice(s, n, n + WORD);
      assert s[..n] + s[n..n + WORD] == s[..n + WORD];
    }
  }

  lemma NoWords(mem: Memory, addr: int)
    ensures Words(mem, addr, 0) == []
  {
  }

  lemma StringIsNulFree(mem: Memory, addr: int, s: seq<Byte>)
    requires HoldsString(mem, addr, s)
    ensures NulFree(s)
  {
  }

  lemma NulFreeSlice(s: seq<Byte>, i: nat, j: nat)
    requires NulFree(s) && i <= j <= |s|
    ensures NulFree(s[i..j])
  {
  }

  lemma WordOfString(mem: Memory, addr: int, s: seq<Byte>, offset: nat)
    requires HoldsString(mem, addr, s) && offset + WORD <= |s|
    ensures PeekWord(mem, addr + offset) == s[offset..offset + WORD]
  {
    var word := PeekWord(mem, addr + offset);
    forall k | 0 <= k < WORD ensures word[k] == s[offset + k] {
      assert word[k] == mem[addr + (offset + k)] == (s + [0])[offset + k];
    }
  }

  lemma LastWordOfString(mem: Memory, addr: int, s: seq<Byte>, offset: nat)
    requires HoldsString(mem, addr, s) && offset <= |s| < offset + WORD && Mapped(mem, addr + offset, WORD)
    ensures !NulFree(PeekWord(mem, addr + offset)) && UpToNul(PeekWord(mem, addr + offset)) == s[offset..]
  {
    var word, n := PeekWord(mem, addr + offset), |s| - offset;
    LastBytes(mem, addr, s, offset);
    StringIsNulFree(mem, addr, s);
    hide HoldsString, PeekWord;
    FirstNulAt(word, n);
  }

  lemma LastBytes(mem: Memory, addr: int, s: seq<Byte>, offset: nat)
    requires HoldsString(mem, addr, s) && offset <= |s| < offset + WORD && Mapped(mem, addr + offset, WORD)
    ensures var word, n := PeekWord(mem, addr + offset), |s| - offset;
            word[..n] == s[offset..] && word[n] == 0
  {
    var word, n := PeekWord(mem, addr + offset), |s| - offset;
    assert word[n] == mem[addr + |s|] == (s + [0])[|s|];
    forall k | 0 <= k < n ensures word[k] == s[offset..][k] {
      assert word[k] == mem[addr + (offset + k)] == (s + [0])[offset + k];
    }
  }

  lemma {:induction false} FirstNulAt(s: seq<Byte>, n: nat)
    requires n < |s| && NulFree(s[..n]) && s[n] == 0
    ensures UpToNul(s) == s[..n]
  {
    if n > 0 {
      assert s[..n][0] == s[0];
      assert s[1..][..n - 1] == s[..n][1..];
      FirstNulAt(s[1..], n - 1);
    }
  }

  lemma {:induction false} NoNul(s: seq<Byte>)
    requires NulFree(s)
    ensures UpToNul(s) == s
  {
    if s != [] { NoNul(s[1..]); }
  }

  /** Every word but the last is taken whole; the last one completes the result. */
  lemma ReadStep(mem: Memory, addr: int, words: nat, read: nat)
    requires EndsAfter(mem, addr, words) && read <= words
    ensures NulFree(WordAt(mem, addr, read)) <==> read < words
    ensures read < words ==>
              Words(mem, addr, read) + UpToNul(WordAt(mem, addr, read)) == Words(mem, addr, read + 1)
    ensures read == words ==> Words(mem, addr, read) + UpToNul(WordAt(mem, addr, read)) == Peeked(mem, addr, words)
  {
    hide WordAt, UpToNul, Words, NulFree;
    if read < words { NoNul(WordAt(mem, addr, read)); }
    WordsStep(mem, addr, read);
  }

  lemma {:induction false} NulIsFound(s: seq<Byte>)
    requires !NulFree(s)
    ensures |UpToNul(s)| < |s|
  {
    if s[0] != 0 {
      assert forall k :: 1 <= k < |s| ==> s[k] == s[1..][k - 1];
      NulIsFound(s[1..]);
    }
  }

  /** A string is read back exactly when the whole word with its terminator is mapped; otherwise the failing peek
      puts bytes in its place and the reading goes on behind it. */
  lemma ReadExact(mem: Memory, addr: int, s: seq<Byte>)
    requires HoldsString(mem, addr, s)
    ensures (exists words: nat :: EndsAfter(mem, addr, words) && Peeked(mem, addr, words) == s)
            <==> Mapped(mem, addr, 8 * (|s| / 8 + 1))
  {
    hide PeekWord, Words, UpToNul, Holds;
    if Mapped(mem, addr, Extent(|s|)) {
      MappedIsRead(mem, addr, s);
    }
    if words: nat :| EndsAfter(mem, addr, words) && Peeked(mem, addr, words) == s {
      NulIsFound(WordAt(mem, addr, words));
      assert |s| / WORD == words;
      NulIsMapped(mem, addr + WORD * words);
      assert Mapped(mem, addr, |s| + 1) by { StringIsMapped(mem, addr, s); }
    }
  }

  lemma StringIsMapped(mem: Memory, addr: int, s: seq<Byte>)
    requires HoldsString(mem, addr, s)
    ensures Mapped(mem, addr, |s| + 1)
  {
  }

  lemma NulIsMapped(mem: Memory, addr: int)
    requires !NulFree(PeekWord(mem, addr))
    ensures Mapped(mem, addr, WORD)
  {
  }

  lemma MappedIsRead(mem: Memory, addr: int, s: seq<Byte>)
    requires HoldsString(mem, addr, s) && Mapped(mem, addr, Extent(|s|))
    ensures EndsAfter(mem, addr, |s| / WORD) && Peeked(mem, addr, |s| / WORD) == s
  {
    hide PeekWord, Words, UpToNul, Holds, NulFree;
    var words := |s| / WORD;
    forall w | 0 <= w < words ensures NulFree(WordAt(mem, addr, w)) {
      WordsOfString(mem, addr, s, w + 1);
    }
    WordsOfString(mem, addr, s, words);
    LastWordOfString(mem, addr, s, WORD * words);
    assert s[..WORD * words] + s[WORD * words..] == s;
  }

  /** Nothing at or above the start of the red zone changed. */
  ghost predicate RedZoneKept(before: Memory, after: Memory, rsp: int) {
    forall a :: a in before && a in after && rsp - RED_ZONE <= a ==> after[a] == before[a]
  }

  /** A memory that holds just these bytes. */
  ghost function Image(base: int, bytes: seq<Byte>): (mem: Memory)
    ensures Holds(mem, base, bytes)
    ensures forall a :: a in mem <==> base <= a < base + |bytes|
  {
    if bytes == [] then map[] else Image(base, bytes[..|bytes| - 1])[base + |bytes| - 1 := bytes[|bytes| - 1]]
  }

  /** A replacement is sure to leave the 128 bytes below the stack pointer alone exactly when it is shorter than 4096. */
  lemma RedZoneSafeIffShort(rsp: int, s: seq<Byte>)
    ensures (forall before, after :: Wrote(before, after, Scratch(rsp), s) ==> RedZoneKept(before, after, rsp))
            <==> |s| < 4096
    ensures forall before, after ::
              RedZoneKept(before, after, rsp) <==> forall a :: a in before && a in after && rsp - 128 <= a ==> after[a] == before[a]
  {
    if |s| >= PATH_MAX {
      var base, text := Scratch(rsp), s + [0];
      var after := Image(base, text);
      var before := Image(base, seq(|text|, i requires 0 <= i < |text| => if text[i] == 0 then 1 else 0));
      assert Wrote(before, after, base, s);
      assert after[rsp - RED_ZONE] != before[rsp - RED_ZONE];
    }
  }

  datatype Reg = RDI | RSI

  /** The stopped process as ptrace shows it. */
  class Tracee {
    var mem: Memory
    var rdi: int
    var rsi: int
    const rsp: int

    constructor (mem: Memory, rdi: int, rsi: int, rsp: int)
      ensures this.mem == mem && this.rdi == rdi && this.rsi == rsi && this.rsp == rsp
    {
      this.mem, this.rdi, this.rsi, this.rsp := mem, rdi, rsi, rsp;
    }

    function Register(reg: Reg): int
      reads this
    {
      if reg.RDI? then rdi else rsi
    }

    method PeekData(addr: int) returns (word: seq<Byte>)
      ensures word == PeekWord(mem, addr)
    {
      word := PeekWord(mem, addr);
    }

    /** Fails without effect when part of the word is not mapped. */
    method PokeText(addr: int, word: seq<Byte>) returns (ok: bool)
      requires |word| == WORD
      modifies this`mem
      ensures ok == Mapped(old(mem), addr, WORD)
      ensures mem == if ok then Store(old(mem), addr, word) else old(mem)
    {
      ok := Mapped(mem, addr, WORD);
      if ok {
        mem := Store(mem, addr, word);
      }
    }

    method PokeUser(reg: Reg, value: int)
      modifies this`rdi, this`rsi
      ensures rdi == if reg.RDI? then value else old(rdi)
      ensures rsi == if reg.RSI? then value else old(rsi)
    {
      if reg.RDI? { rdi := value; } else { rsi := value; }
    }

    /** Reads words until one contains a NUL, which is assumed to happen. */
    method ReadString(addr: int, ghost words: nat) returns (result: seq<Byte>)
      requires EndsAfter(mem, addr, words)
      ensures result == Peeked(mem, addr, words)
    {
      var isComplete, readBytes := false, 0;
      ghost var read := 0;
      hide PeekWord, WordAt, UpToNul, NulFree, EndsAfter, Peeked;
      result := [];
      assert Words(mem, addr, 0) == [];
      hide Words;
      while !isComplete
        invariant !isComplete ==> readBytes == WORD * read && read <= words && result == Words(mem, addr, read)
        invariant isComplete ==> result == Peeked(mem, addr, words)
        decreases !isComplete, words - read
      {
        WordAtMeans(mem, addr, read);
        var data := PeekData(addr + readBytes);
        var end, taken := TakeWord(data);
        ReadStep(mem, addr, words, read);
        result := result + taken;
        isComplete := end;
        readBytes, read := readBytes + WORD, read + 1;
      }
    }

    /** The characters of one word, up to a NUL. */
    static method TakeWord(data: seq<Byte>) returns (end: bool, taken: seq<Byte>)
      ensures end == !NulFree(data)
      ensures taken == UpToNul(data)
    {
      end, taken := false, [];
      var i := 0;
      while i < |data| && !end
        invariant 0 <= i <= |data| && taken == data[..i]
        invariant NulFree(data[..i])
        invariant end ==> i < |data| && data[i] == 0
        decreases !end, |data| - i
      {
        if data[i] == 0 {
          end := true;
        } else {
          taken := taken + [data[i]];
          i := i + 1;
        }
      }
      if end {
        FirstNulAt(data, i);
      } else {
        assert data[..i] == data;
        NoNul(data);
      }
    }

    /** Fills one word of the copy; the bytes behind the terminator are whatever the buffer held. */
    static method FillWord(str: seq<Byte>, offset: nat) returns (buf: seq<Byte>, end: bool)
      requires offset <= |str|
      ensures |buf| == WORD
      ensures end == (|str| < offset + WORD)
      ensures forall k :: 0 <= k < WORD && offset + k < |str| ==> buf[k] == str[offset + k]
      ensures end ==> buf[|str| - offset] == 0
    {
      var chars := new Byte[WORD];
      var i := 0;
      end := false;
      while i < WORD && !end
        invariant 0 <= i <= WORD && offset + i <= |str|
        invariant end ==> i < WORD && offset + i == |str| && chars[i] == 0
        invariant forall k :: 0 <= k < i ==> chars[k] == str[offset + k]
        decreases !end, WORD - i
      {
        if i + offset == |str| {
          chars[i] := 0;
          end := true;
        } else {
          chars[i] := str[offset + i];
          i := i + 1;
        }
      }
      buf := chars[..];
    }

    /** Writes str and a NUL below the red zone, word by word, and points the register at it. */
    method WriteString(reg: Reg, str: seq<Byte>) returns (ok: bool)
      modifies this`mem, this`rdi, this`rsi
      ensures ok == Mapped(old(mem), rsp - 4224, 8 * (|str| / 8 + 1))
      ensures ok ==> Wrote(old(mem), mem, rsp - 4224, str)
      ensures forall a :: a in mem && !(rsp - 4224 <= a < rsp - 4224 + 8 * (|str| / 8 + 1)) ==> a in old(mem) && mem[a] == old(mem)[a]
      ensures rdi == if ok && reg.RDI? then rsp - 4224 else old(rdi)
      ensures rsi == if ok && reg.RSI? then rsp - 4224 else old(rsi)
    {
      var fileAddr := rsp - (RED_ZONE + PATH_MAX);
      var offset, end := 0, false;
      ghost var n, text := |str|, str + [0];
      while !end
        invariant offset % WORD == 0 && 0 <= offset
        invariant !end ==> offset <= n
        invariant end ==> offset == Extent(n)
        invariant mem.Keys == old(mem).Keys && Mapped(mem, fileAddr, offset)
        invariant rdi == old(rdi) && rsi == old(rsi)
        invariant forall a :: fileAddr <= a < fileAddr + offset && a - fileAddr <= n ==> mem[a] == text[a - fileAddr]
        invariant forall a :: a in mem && !(fileAddr <= a < fileAddr + offset) ==> mem[a] == old(mem)[a]
        decreases !end, n - offset
      {
        assert offset + WORD <= Extent(n);
        var buf;
        buf, end := FillWord(str, offset);
        var poked := PokeText(fileAddr + offset, buf);
        if !poked {
          return false;
        }
        offset := offset + WORD;
      }
      PokeUser(reg, fileAddr);
      ok := true;
    }
  }

  /** What writeString left is what readString, and the kernel, find at the address. */
  lemma WrittenStringIsThere(before: Memory, after: Memory, base: int, s: seq<Byte>)
    requires NulFree(s) && Wrote(before, after, base, s)
    ensures HoldsString(after, base, s)
    ensures forall t :: HoldsString(after, base, t) ==> t == s
  {
    forall t | HoldsString(after, base, t) ensures t == s {
      StringUnique(after, base, s, t);
    }
  }
}
