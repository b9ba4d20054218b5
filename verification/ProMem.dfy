/** mem.c: byte access to the memory of a traced process through ptrace's word access. */
module ProMem {

  type Byte = b: int | 0 <= b < 256

  /** The bytes a process has mapped. */
  type Text = map<nat, Byte>

  const WORD := 8

  /** The registers that matter here: the program counter and everything else. */
  datatype Cpu<D> = Cpu(pc: nat, data: D, exited: bool)

  class Tracee<D> {
    var text: Text
    var cpu: Cpu<D>

    constructor (text: Text, cpu: Cpu<D>)
      ensures this.text == text && this.cpu == cpu
    {
      this.text, this.cpu := text, cpu;
    }
  }

  /** ptrace can access the word at `a`: all its bytes are mapped. */
  predicate Mapped(t: Text, a: nat) { forall i :: a <= i < a + WORD ==> i in t }

  /** PTRACE_PEEKTEXT. On failure it returns -1, all ones, which mem.c cannot tell from data since its test
      compares an unsigned word with 0. */
  function Peek(t: Text, a: nat): (w: seq<Byte>)
    ensures |w| == WORD
  {
    if Mapped(t, a) then seq(WORD, i requires 0 <= i < WORD => t[a + i]) else seq(WORD, _ => 255)
  }

  /** `bytes` laid over memory from address `a` on. */
  function Splice(t: Text, a: nat, bytes: seq<Byte>): Text {
    map x | x in t :: if a <= x < a + |bytes| then bytes[x - a] else t[x]
  }

  /** PTRACE_POKETEXT; fails without effect when the word is not mapped. */
  method Poke<D>(p: Tracee<D>, a: nat, w: seq<Byte>) returns (ok: bool)
    requires |w| == WORD
    modifies p`text
    ensures ok == Mapped(old(p.text), a)
    ensures p.text == if ok then Splice(old(p.text), a, w) else old(p.text)
  {
    ok := Mapped(p.text, a);
    if ok { p.text := Splice(p.text, a, w); }
  }

  /** What read_pro_mem delivers: a byte of an unmapped word reads as 255. */
  function ReadBytes(t: Text, a: nat, len: nat): seq<Byte> {
    seq(len, i requires 0 <= i => if Mapped(t, a + i / WORD * WORD) then t[a + i] else 255)
  }

  /** All words that hold the `len` bytes from `a` on are mapped. */
  predicate AllMapped(t: Text, a: nat, len: nat) {
    forall i :: 0 <= i < len ==> Mapped(t, a + i / WORD * WORD)
  }

  /** read_pro_mem */
  method ReadProMem<D>(p: Tracee<D>, addr: nat, str: array<Byte>, len: nat) returns (rc: int)
    requires len <= str.Length
    modifies str
    ensures rc == 0
    ensures str[..len] == ReadBytes(p.text, addr, len) && str[len..] == old(str[len..])
  {
    var i, n := 0, len / WORD;
    while i < n
      invariant i <= n
      invariant forall j :: 0 <= j < i * WORD ==> str[j] == ReadBytes(p.text, addr, len)[j]
      invariant forall j :: i * WORD <= j < str.Length ==> str[j] == old(str[j])
    {
      var data := Peek(p.text, addr + i * WORD);
      forall j | 0 <= j < WORD { str[i * WORD + j] := data[j]; }
      i := i + 1;
    }
    var remainder := len % WORD;
    if remainder != 0 {
      var data := Peek(p.text, addr + i * WORD);
      forall j | 0 <= j < remainder { str[i * WORD + j] := data[j]; }
    }
    return 0;
  }

  lemma SpliceJoins(t: Text, a: nat, x: seq<Byte>, y: seq<Byte>)
    ensures Splice(Splice(t, a, x), a + |x|, y) == Splice(t, a, x + y)
  {
  }

  /** A word that keeps its own last bytes changes only the first ones. */
  lemma SpliceShort(t: Text, a: nat, x: seq<Byte>)
    requires |x| <= WORD && Mapped(t, a)
    ensures Splice(t, a, x + Peek(t, a)[|x|..]) == Splice(t, a, x)
  {
  }

  /** One word further, if the word at `done` is mapped. */
  lemma {:induction false} OneWordFurther(t0: Text, a: nat, all: seq<Byte>, done: nat, k: nat)
    requires done + k <= |all| && done % WORD == 0 && k <= WORD
    ensures var t := Splice(t0, a, all[..done]);
      && (Mapped(t, a + done) <==> Mapped(t0, a + done))
      && Splice(t, a + done, all[done..done + k]) == Splice(t0, a, all[..done + k])
      && (AllMapped(t0, a, done) && Mapped(t0, a + done) ==> AllMapped(t0, a, done + k))
  {
    var t := Splice(t0, a, all[..done]);
    assert forall x: nat :: x in t <==> x in t0;
    SpliceJoins(t0, a, all[..done], all[done..done + k]);
    assert all[..done] + all[done..done + k] == all[..done + k];
    forall i | done <= i < done + k ensures i / WORD * WORD == done || i == done + WORD {}
  }

  /** Writes word by word and stops at the first word that is not mapped. `done` bytes get written. */
  method WriteProMem<D>(p: Tracee<D>, addr: nat, str: array<Byte>, len: nat) returns (rc: int, ghost done: nat)
    requires len <= str.Length
    modifies p`text
    ensures done <= len && p.text == Splice(old(p.text), addr, str[..done])
    ensures rc == 0 ==> done == len && AllMapped(old(p.text), addr, len)
    ensures rc != 0 ==> (rc == -1 && done < len && AllMapped(old(p.text), addr, done)
                         && done % WORD == 0 && !Mapped(old(p.text), addr + done))
  {
    hide Splice, Mapped, AllMapped;
    var i, n := 0, len / WORD;
    ghost var t0, all := p.text, str[..];
    NothingWritten(t0, addr);
    while i < n
      invariant i <= n
      invariant p.text == Splice(t0, addr, all[..i * WORD]) && AllMapped(t0, addr, i * WORD)
    {
      var data := str[i * WORD..i * WORD + WORD];
      OneWordFurther(t0, addr, all, i * WORD, WORD);
      assert data == all[i * WORD..i * WORD + WORD];
      var ok := Poke(p, addr + i * WORD, data);
      if !ok {
        return -1, i * WORD;
      }
      i := i + 1;
    }
    var remainder := len % WORD;
    if remainder != 0 {
      var data := Peek(p.text, addr + i * WORD);
      OneWordFurther(t0, addr, all, i * WORD, remainder);
      assert str[i * WORD..len] == all[i * WORD..i * WORD + remainder];
      data := str[i * WORD..len] + data[remainder..];
      ghost var t := p.text;
      var ok := Poke(p, addr + i * WORD, data);
      if !ok {
        return -1, i * WORD;
      }
      SpliceShort(t, addr + i * WORD, str[i * WORD..len]);
    }
    return 0, len;
  }

  lemma NothingWritten(t: Text, a: nat)
    ensures Splice(t, a, []) == t && AllMapped(t, a, 0)
  {
  }

  /** A write that succeeds changes the given bytes and no others, and a read of the same range returns them. */
  lemma {:induction false} ReadAfterWrite(t: Text, a: nat, bytes: seq<Byte>)
    requires AllMapped(t, a, |bytes|)
    ensures var t' := Splice(t, a, bytes);
      && t'.Keys == t.Keys
      && (forall x <- t :: t'[x] == if a <= x < a + |bytes| then bytes[x - a] else t[x])
      && ReadBytes(t', a, |bytes|) == bytes
  {
    var t' := Splice(t, a, bytes);
    forall i | 0 <= i < |bytes| ensures ReadBytes(t', a, |bytes|)[i] == bytes[i] {
      assert Mapped(t, a + i / WORD * WORD);
      assert a + i in t;
    }
  }
}
