/** 32-bit words and their bytes. */
module Words {
  import opened Bytes

  type word = bv32

  function LittleEndian(b0: byte, b1: byte, b2: byte, b3: byte): word {
    (b0 as word) | (b1 as word << 8) | (b2 as word << 16) | (b3 as word << 24)
  }

  /** (val >> 8 * n) & 0xff */
  function ByteOf(val: word, n: nat): byte
    requires n < 4
  {
    if n == 0 then (val & 0xff) as byte
    else if n == 1 then ((val >> 8) & 0xff) as byte
    else if n == 2 then ((val >> 16) & 0xff) as byte
    else ((val >> 24) & 0xff) as byte
  }

  lemma LittleEndianBytes(b0: byte, b1: byte, b2: byte, b3: byte)
    ensures var w := LittleEndian(b0, b1, b2, b3);
            ByteOf(w, 0) == b0 && ByteOf(w, 1) == b1 && ByteOf(w, 2) == b2 && ByteOf(w, 3) == b3
  {
  }

  lemma WordFromBytes(w: word)
    ensures LittleEndian(ByteOf(w, 0), ByteOf(w, 1), ByteOf(w, 2), ByteOf(w, 3)) == w
  {
  }

  lemma JoinedValue(b0: byte, b1: byte, b2: byte, b3: byte)
    ensures ((b0 as word) | (b1 as word << 8) | (b2 as word << 16) | (b3 as word << 24)) as nat
         == b0 as nat + 0x100 * b1 as nat + 0x1_0000 * b2 as nat + 0x100_0000 * b3 as nat
  {
  }

  /** The number that four bytes stand for, the lowest byte first. */
  lemma LittleEndianValue(b0: byte, b1: byte, b2: byte, b3: byte)
    ensures LittleEndian(b0, b1, b2, b3) as nat
         == b0 as nat + 0x100 * b1 as nat + 0x1_0000 * b2 as nat + 0x100_0000 * b3 as nat
  {
    LittleEndianJoins(b0, b1, b2, b3);
    JoinedValue(b0, b1, b2, b3);
    hide LittleEndian;
  }

  lemma LittleEndianJoins(b0: byte, b1: byte, b2: byte, b3: byte)
    ensures LittleEndian(b0, b1, b2, b3)
         == ((b0 as word) | (b1 as word << 8) | (b2 as word << 16) | (b3 as word << 24))
  {
  }

  /** The number that four bytes stand for, lowest first. */
  ghost predicate StandFor(b: seq<byte>, val: word)
    requires |b| == 4
  {
    val as nat == b[0] as nat + 0x100 * b[1] as nat + 0x1_0000 * b[2] as nat + 0x100_0000 * b[3] as nat
  }

  /** The bytes of a word are its digits to base 256. */
  lemma ByteOfValue(w: word)
    ensures w as nat == ByteOf(w, 0) as nat + 0x100 * ByteOf(w, 1) as nat
                        + 0x1_0000 * ByteOf(w, 2) as nat + 0x100_0000 * ByteOf(w, 3) as nat
  {
    WordFromBytes(w);
    LittleEndianValue(ByteOf(w, 0), ByteOf(w, 1), ByteOf(w, 2), ByteOf(w, 3));
    hide LittleEndian, ByteOf;
  }

  // ---- bits ----

  function And(x: word, y: word): word {
    x & y
  }

  function Or(x: word, y: word): word {
    x | y
  }

  function Exor(x: word, y: word): word {
    x ^ y
  }

  function Not(x: word): word {
    !x
  }

  lemma NotNot(m: word)
    ensures Not(Not(m)) == m
  {
  }

  /** Every bit of part is a bit of whole. */
  predicate SubMask(part: word, whole: word) {
    And(part, whole) == part
  }

  predicate Apart(a: word, b: word) {
    And(a, b) == 0
  }

  lemma SettingBits(x: word, m: word, k: word)
    ensures And(Or(x, m), m) == m
    ensures Apart(m, k) ==> And(Or(x, m), k) == And(x, k)
  {
  }

  lemma ClearingBits(x: word, m: word, k: word)
    ensures And(And(x, Not(m)), m) == 0
    ensures Apart(m, k) ==> And(And(x, Not(m)), k) == And(x, k)
  {
  }

  lemma Complement(m: word)
    ensures Apart(m, Not(m)) && SubMask(m, m)
  {
  }
}
