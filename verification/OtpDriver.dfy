/** src/soc/otp.c: the driver, over a model of the secure boot controller. */
module OtpDriver {
  import opened Words
  import opened Otp
  import opened Limits

  /** Nothing changed, or bits of one word were set, and only ones in bits. */
  ghost predicate Burnt(a: Image, b: Image, slot: nat, bits: word) {
    a == b || exists s :: slot < 32 && And(s, bits) == s && b == SetBits(a, slot, s)
  }

  /** Nothing changed, or this bit of one word was set. */
  ghost predicate OneBit(a: Image, b: Image, slot: nat, mask: word)
    requires slot < 32
  {
    a == b || b == SetBits(a, slot, mask)
  }

  lemma BurntOneBit(a: Image, b: Image, slot: nat, mask: word)
    requires slot < 32 && IsBit(mask) && Burnt(a, b, slot, mask)
    ensures OneBit(a, b, slot, mask)
  {
    if a != b {
      var s :| And(s, mask) == s && b == SetBits(a, slot, s);
      AndOfBit(mask, s);
      OrZero(a[slot]);
      hide And, Or, IsBit;
    }
  }

  lemma OneBitTwice(a: Image, b: Image, c: Image, slot: nat, mask: word)
    requires slot < 32 && OneBit(a, b, slot, mask) && OneBit(b, c, slot, mask)
    ensures OneBit(a, c, slot, mask)
  {
    OrTwice(a[slot], mask);
    hide Or;
  }

  lemma OrZero(x: word)
    ensures Or(x, 0) == x
  {
  }

  lemma OrTwice(x: word, m: word)
    ensures Or(Or(x, m), m) == Or(x, m)
  {
  }

  /** The registers of the controller. A failing write does not reach it; a failing access
      returns a negative errno. */
  class Controller {
    const reliable: bool
    var image: Image
    var unlocked: bool
    var addr: nat
    var compare: word
    var timing: word
    var analog: map<nat, word>  // the registers that set the programming voltages
    var burns: seq<word>        // the timing in force at each program command so far

    method Fault() returns (rc: int)
      ensures rc <= 0 && (reliable ==> rc == 0)
    {
      rc := *;
      if reliable || rc > 0 {
        rc := 0;
      }
    }

    method WriteKey(v: word) returns (rc: int)
      modifies this`unlocked
      ensures rc <= 0 && (reliable ==> rc == 0)
      ensures unlocked == if rc < 0 then old(unlocked) else v == 0x349f_e38a
    {
      rc := Fault();
      if rc == 0 {
        unlocked := v == OTP_PASSWD;
      }
    }

    method WriteAddr(v: nat) returns (rc: int)
      modifies this`addr
      ensures rc <= 0 && (reliable ==> rc == 0)
      ensures rc == 0 ==> addr == v
    {
      rc := Fault();
      if rc == 0 {
        addr := v;
      }
    }

    method WriteCompare(v: word) returns (rc: int)
      modifies this`compare
      ensures rc <= 0 && (reliable ==> rc == 0)
      ensures rc == 0 ==> compare == v
    {
      rc := Fault();
      if rc == 0 {
        compare := v;
      }
    }

    method WriteTiming(v: word) returns (rc: int)
      modifies this`timing
      ensures rc <= 0 && (reliable ==> rc == 0)
      ensures timing == if rc == 0 then v else old(timing)
    {
      rc := Fault();
      if rc == 0 {
        timing := v;
      }
    }

    /** The command that writes an analog register. */
    method SetAnalog() returns (rc: int)
      modifies this`analog
      ensures rc <= 0 && (reliable ==> rc == 0)
      ensures analog == if rc == 0 then old(analog)[addr := compare] else old(analog)
    {
      rc := Fault();
      if rc == 0 {
        analog := analog[addr := compare];
      }
    }

    /** The program command: of the bits that compare holds as 0, any number get set. */
    method Burn() returns (rc: int)
      modifies this`image, this`burns
      ensures rc <= 0 && (reliable ==> rc == 0)
      ensures burns == if rc == 0 then old(burns) + [timing] else old(burns)
      ensures Burnt(old(image), image, SlotOf(addr), Not(compare))
      ensures !unlocked || rc < 0 ==> image == old(image)
    {
      rc := Fault();
      var slot := SlotOf(addr);
      if rc == 0 {
        burns := burns + [timing];
      }
      if rc == 0 && unlocked && slot < 32 {
        var any: word := *;
        AndTwice(any, Not(compare));
        hide And, Or, Not;
        image := SetBits(image, slot, And(any, Not(compare)));
      }
    }

    /** The read command. */
    method Fetch() returns (rc: int)
      modifies this`compare
      ensures rc <= 0 && (reliable ==> rc == 0)
      ensures rc == 0 && unlocked && SlotOf(addr) < 32 ==> compare == image[SlotOf(addr)]
    {
      rc := Fault();
      var slot := SlotOf(addr);
      if rc == 0 {
        if unlocked && slot < 32 {
          compare := image[slot];
        } else {
          compare := *;
        }
      }
    }

    method ReadCompare() returns (rc: int, v: word)
      ensures rc <= 0 && (reliable ==> rc == 0)
      ensures rc == 0 ==> v == compare
    {
      v := compare;
      rc := Fault();
    }

  }

  lemma AndTwice(x: word, y: word)
    ensures And(And(x, y), y) == And(x, y)
  {
  }

  /** One row of soak_parameters. */
  datatype Soak = Soak(first: word, second: word, third: word)

  class Driver {
    const ctl: Controller
    const soaks: seq<Soak>
    const timings: seq<word>

    constructor (ctl: Controller, soaks: seq<Soak>, timings: seq<word>)
      requires |soaks| == 3 && |timings| == 3
      ensures this.ctl == ctl && this.soaks == soaks && this.timings == timings && Valid()
    {
      this.ctl, this.soaks, this.timings := ctl, soaks, timings;
    }

    ghost predicate Valid() {
      |soaks| == 3 && |timings| == 3
    }

    /** Voltages and timing are those of this level. */
    ghost predicate AtLevel(level: nat)
      requires Valid() && level <= 2
      reads ctl
    {
      && ctl.timing == timings[level]
      && 0x3000 in ctl.analog && ctl.analog[0x3000] == soaks[level].first
      && 0x5000 in ctl.analog && ctl.analog[0x5000] == soaks[level].second
      && 0x1000 in ctl.analog && ctl.analog[0x1000] == soaks[level].third
    }

    /** The timings of the first n retries: strong, normal, strong, and so on. */
    ghost function Retries(n: nat): seq<word>
      requires Valid()
    {
      if n == 0 then [] else Retries(n - 1) + [timings[RetryLevel(n - 1)]]
    }

    /** The i-th retry is strong for even i and normal for odd i. */
    lemma {:induction false} RetriesAlternate(n: nat, i: nat)
      requires Valid() && i < n
      ensures |Retries(n)| == n && Retries(n)[i] == timings[2 - i % 2]
      decreases n
    {
      if n > 1 {
        RetriesAlternate(n - 1, if i < n - 1 then i else 0);
      }
    }

    static function RetryLevel(tries: nat): (level: nat)
      ensures level <= 2
    {
      if tries % 2 != 0 then 1 else 2
    }

    /** otp_wait_complete: the command finishes in time, or the wait reports otherwise. */
    method WaitComplete() returns (rc: int)
      ensures rc <= 0 && (ctl.reliable ==> rc == 0)
    {
      rc := ctl.Fault();
      var late := *;
      if rc == 0 && !ctl.reliable && late {
        rc := -ETIMEDOUT;
      }
    }

    /** otp_program */
    method Program(addr: nat, val: word) returns (rc: int)
      modifies ctl
      ensures rc <= 0 && (ctl.reliable ==> rc == 0)
      ensures ctl.unlocked == old(ctl.unlocked) && ctl.timing == old(ctl.timing) && ctl.analog == old(ctl.analog)
      ensures ctl.reliable ==> ctl.burns == old(ctl.burns) + [ctl.timing]
      ensures Burnt(old(ctl.image), ctl.image, SlotOf(addr), Not(val))
    {
      hide Burnt;
      BurntNothing(ctl.image, SlotOf(addr), Not(val));
      rc := ctl.WriteAddr(addr);
      if rc < 0 {
        return;
      }
      rc := ctl.WriteCompare(val);
      if rc < 0 {
        return;
      }
      rc := ctl.Burn();
      if rc < 0 {
        return;
      }
      rc := WaitComplete();
    }

    /** otp_read_reg */
    method ReadReg(addr: nat) returns (rc: int, val: word)
      modifies ctl
      ensures rc <= 0 && (ctl.reliable ==> rc == 0)
      ensures ctl.unlocked == old(ctl.unlocked) && ctl.image == old(ctl.image) && ctl.burns == old(ctl.burns)
      ensures ctl.timing == old(ctl.timing) && ctl.analog == old(ctl.analog)
      ensures rc == 0 && ctl.unlocked && SlotOf(addr) < 32 ==> val == ctl.image[SlotOf(addr)]
    {
      val := 0;
      rc := ctl.WriteAddr(addr);
      if rc < 0 {
        return;
      }
      rc := ctl.Fetch();
      if rc < 0 {
        return;
      }
      rc := WaitComplete();
      if rc < 0 {
        return;
      }
      rc, val := ctl.ReadCompare();
    }

    /** otp_read_config */
    method ReadConfig(offset: nat) returns (rc: int, val: word)
      requires offset < 32
      modifies ctl
      ensures rc <= 0 && (ctl.reliable ==> rc == 0)
      ensures ctl.unlocked == old(ctl.unlocked) && ctl.image == old(ctl.image)
      ensures rc == 0 && ctl.unlocked ==> val == ctl.image[offset]
    {
      AddressRoundTrip(offset);
      rc, val := ReadReg(ConfAddr(offset));
    }

    /** otp_write_reg */
    method WriteReg(addr: nat, val: word) returns (rc: int)
      modifies ctl
      ensures rc <= 0 && (ctl.reliable ==> rc == 0)
      ensures ctl.unlocked == old(ctl.unlocked) && ctl.image == old(ctl.image) && ctl.burns == old(ctl.burns)
      ensures rc == 0 ==> ctl.analog == old(ctl.analog)[addr := val]
    {
      rc := ctl.WriteAddr(addr);
      if rc < 0 {
        return;
      }
      rc := ctl.WriteCompare(val);
      if rc < 0 {
        return;
      }
      rc := ctl.SetAnalog();
      if rc < 0 {
        return;
      }
      rc := WaitComplete();
    }

    /** otp_set_soak */
    method SetSoak(soak: nat) returns (rc: int)
      requires Valid()
      modifies ctl
      ensures soak > 2 ==> rc == -EINVAL
      ensures soak <= 2 ==> rc <= 0 && (ctl.reliable ==> rc == 0) && (rc == 0 ==> AtLevel(soak))
      ensures ctl.unlocked == old(ctl.unlocked) && ctl.image == old(ctl.image) && ctl.burns == old(ctl.burns)
    {
      if soak > 2 {
        return -EINVAL;
      }
      rc := WriteReg(0x3000, soaks[soak].first);
      if rc < 0 {
        return;
      }
      rc := WriteReg(0x5000, soaks[soak].second);
      if rc < 0 {
        return;
      }
      rc := WriteReg(0x1000, soaks[soak].third);
      if rc < 0 {
        return;
      }
      rc := ctl.WriteTiming(timings[soak]);
    }

    /** otp_confirm: what is typed at the prompt. */
    method Confirm() returns (rc: int)
      ensures rc <= 0
    {
      rc := *;
      if rc > 0 {
        rc := 0;
      }
    }

    /** The loop of otp_write. seen: the bit was set when it was last looked at. */
    method Retry(addr: nat, mask: word) returns (rc: int, tries: nat, ghost seen: bool)
      requires Valid() && ctl.unlocked && IsBit(mask) && SlotOf(addr) < 32
      modifies ctl
      ensures rc <= 0 && (ctl.reliable ==> rc == 0)
      ensures ctl.reliable ==> ctl.burns == old(ctl.burns) + Retries(tries)
      ensures ctl.unlocked && OneBit(old(ctl.image), ctl.image, SlotOf(addr), mask)
      ensures rc == 0 && seen ==> tries <= NUM_PROG_TRIES && Has(ctl.image[SlotOf(addr)], mask)
      ensures rc == 0 && !seen ==> tries == NUM_PROG_TRIES + 1
    {
      RetriesStart(ctl.burns);
      hide Has, IsBit, Burnt, OneBit, SlotOf, Retries;
      tries, seen := 0, false;
      OneBitNone(ctl.image, SlotOf(addr), mask);
      while true
        invariant tries <= NUM_PROG_TRIES && ctl.unlocked
        invariant OneBit(old(ctl.image), ctl.image, SlotOf(addr), mask)
        invariant ctl.reliable ==> ctl.burns == old(ctl.burns) + Retries(tries)
        decreases NUM_PROG_TRIES - tries
      {
        var readback: word;
        rc, readback := ReadReg(addr);
        if rc < 0 {
          return;
        }
        if Has(readback, mask) {
          seen := true;
          return;
        }
        rc := Again(addr, mask, tries, old(ctl.image));
        if rc < 0 {
          return;
        }
        RetriesGrow(old(ctl.burns), tries);
        tries := tries + 1;
        if tries > NUM_PROG_TRIES {
          return;
        }
      }
    }

    /** One retry: the next soak level, then the program command again. */
    method Again(addr: nat, mask: word, tries: nat, ghost start: Image) returns (rc: int)
      requires Valid() && IsBit(mask) && SlotOf(addr) < 32 && OneBit(start, ctl.image, SlotOf(addr), mask)
      modifies ctl
      ensures rc <= 0 && (ctl.reliable ==> rc == 0)
      ensures ctl.unlocked == old(ctl.unlocked)
      ensures ctl.reliable ==> ctl.burns == old(ctl.burns) + [timings[2 - tries % 2]]
      ensures OneBit(start, ctl.image, SlotOf(addr), mask)
    {
      hide IsBit, OneBit, SlotOf;
      rc := SetSoak(if tries % 2 != 0 then 1 else 2);
      if rc < 0 {
        return;
      }
      rc := ProgramBit(addr, mask, start);
    }

    lemma RetriesStart(burns: seq<word>)
      requires Valid()
      ensures burns == burns + Retries(0)
    {
    }

    lemma RetriesGrow(burns: seq<word>, n: nat)
      requires Valid()
      ensures burns + Retries(n) + [timings[RetryLevel(n)]] == burns + Retries(n + 1)
    {
    }

    /** otp_program with the one bit to set. */
    method ProgramBit(addr: nat, mask: word, ghost start: Image) returns (rc: int)
      requires IsBit(mask) && SlotOf(addr) < 32 && OneBit(start, ctl.image, SlotOf(addr), mask)
      modifies ctl
      ensures rc <= 0 && (ctl.reliable ==> rc == 0)
      ensures ctl.unlocked == old(ctl.unlocked)
      ensures ctl.reliable ==> ctl.burns == old(ctl.burns) + [old(ctl.timing)]
      ensures OneBit(start, ctl.image, SlotOf(addr), mask)
    {
      hide IsBit, Not, Burnt, OneBit;
      NotNot(mask);
      ghost var before := ctl.image;
      rc := Program(addr, Not(mask));
      BurntOneBit(before, ctl.image, SlotOf(addr), mask);
      OneBitTwice(start, before, ctl.image, SlotOf(addr), mask);
    }

    /** otp_write. The voltages and the timing go back to level 0 on every exit but one: if
        the first otp_set_soak fails nothing more is attempted. undo is how that or going
        back went, which the source does not look at. The code for failure is returned
        exactly if the bit was first seen set at the 17th look; a bit that never gets set is
        reported as success. */
    method Write(addr: nat, mask: word)
      returns (rc: int, ghost undo: int, ghost looks: nat, ghost seen: bool)
      requires Valid() && ctl.unlocked && IsBit(mask) && SlotOf(addr) < 32
      modifies ctl
      ensures rc <= 0
      ensures undo == 0 ==> AtLevel(0)
      ensures ctl.reliable ==>
                && AtLevel(0)
                && ctl.burns ==
                   old(ctl.burns) + ([timings[1]] + Retries(if seen && looks > 0 then looks - 1 else looks))
      ensures ctl.unlocked && OneBit(old(ctl.image), ctl.image, SlotOf(addr), mask)
      ensures ctl.reliable ==> rc == if seen && looks == 17 then -EREMOTEIO else 0
      ensures ctl.reliable && seen ==> Has(ctl.image[SlotOf(addr)], mask)
      ensures ctl.reliable && !seen ==> looks == 17
    {
      hide Has, IsBit, OneBit, SlotOf, Retries;
      OneBitNone(ctl.image, SlotOf(addr), mask);
      ghost var start := ctl.image;
      looks, seen := 0, false;
      rc := SetSoak(1);
      undo := rc;
      if rc < 0 {
        return;
      }
      rc := ProgramBit(addr, mask, start);
      if rc >= 0 {
        ghost var before := ctl.image;
        var tries;
        rc, tries, seen := Retry(addr, mask);
        OneBitTwice(start, before, ctl.image, SlotOf(addr), mask);
        looks := if seen then tries + 1 else tries;
        if rc >= 0 && tries == NUM_PROG_TRIES {
          rc := -EREMOTEIO;
        }
      }
      var back := SetSoak(0);
      undo := back;
    }

    /** otp_write_conf */
    method WriteConf(index: nat, bit: word) returns (rc: int)
      requires Valid()
      modifies ctl
      ensures rc <= 0 && Allowed(old(ctl.image), Conf(index, bit), ctl.image)
      ensures index >= NUM_OTP_CONF || bit >= 32 ==> rc == -EINVAL && ctl.unlocked == old(ctl.unlocked)
      ensures index < NUM_OTP_CONF && bit < 32 && ctl.reliable ==>
                !ctl.unlocked && (Has(old(ctl.image)[index], BitMask(bit)) ==> rc == -EALREADY)
      ensures ConfOutcome(old(ctl.image), index, bit as nat, ctl.image, rc, ctl.reliable)
    {
      hide Has, IsBit, BitMask, Allowed, ConfOutcome;
      ghost var start := ctl.image;
      NothingDone(start, Conf(index, bit));
      if index >= NUM_OTP_CONF || bit >= 32 {
        ConfInNumbers(start, index, bit, start, -EINVAL, ctl.reliable);
        return -EINVAL;
      }
      var mask := BitMask(bit);
      rc := ctl.WriteKey(OTP_PASSWD);
      if rc < 0 {
        ConfInNumbers(start, index, bit, start, rc, ctl.reliable);
        return;
      }
      rc := SetConfBit(index, mask);
      ConfBitAllowed(start, index, bit, ctl.image);
      var lock := ctl.WriteKey(0);
      ConfInNumbers(start, index, bit, ctl.image, rc, ctl.reliable);
    }

    /** otp_write_conf up to the label done. */
    method SetConfBit(index: nat, mask: word) returns (rc: int)
      requires Valid() && index < NUM_OTP_CONF && IsBit(mask) && ctl.unlocked
      modifies ctl
      ensures rc <= 0
      ensures OneBit(old(ctl.image), ctl.image, index, mask)
      ensures Has(old(ctl.image)[index], mask) ==>
                ctl.image == old(ctl.image) && (ctl.reliable ==> rc == -EALREADY)
    {
      hide Has, IsBit;
      var conf: word;
      rc, conf := ReadConfig(index);
      if rc < 0 {
        return;
      }
      if Has(conf, mask) {
        return -EALREADY;
      }
      rc := Confirm();
      if rc < 0 {
        return;
      }
      AddressRoundTrip(index);
      ghost var undo, looks, seen;
      rc, undo, looks, seen := Write(ConfAddr(index), mask);
    }

    /** otp_write_strap */
    method WriteStrap(bit: word, val: word) returns (rc: int)
      requires Valid()
      modifies ctl
      ensures rc <= 0 && Allowed(old(ctl.image), Strap(bit, val), ctl.image)
      ensures bit >= 64 || val > 1 ==> rc == -EINVAL && ctl.unlocked == old(ctl.unlocked)
      ensures bit < 64 && val <= 1 && ctl.reliable ==>
                !ctl.unlocked && (Refusal(old(ctl.image), WordOf(bit), MaskOf(bit), val) < 0 ==>
                                    rc == Refusal(old(ctl.image), WordOf(bit), MaskOf(bit), val))
      ensures StrapOutcome(old(ctl.image), bit as nat, val, ctl.image, rc, ctl.reliable)
    {
      hide Has, IsBit, BitMask, MaskOf, StrapIs, FirstFree, Protected, Allowed, StrapOutcome;
      ghost var start := ctl.image;
      NothingDone(start, Strap(bit, val));
      if bit >= 64 || val > 1 {
        StrapInNumbers(start, bit, val, start, -EINVAL, ctl.reliable);
        return -EINVAL;
      }
      rc := ctl.WriteKey(OTP_PASSWD);
      if rc < 0 {
        StrapInNumbers(start, bit, val, start, rc, ctl.reliable);
        return;
      }
      var w := WordOf(bit);
      var mask := MaskOf(bit);
      rc := SetStrapBit(w, mask, val);
      StrapBitAllowed(start, bit, val, ctl.image);
      var lock := ctl.WriteKey(0);
      StrapInNumbers(start, bit, val, ctl.image, rc, ctl.reliable);
    }

    /** otp_write_strap between the two key writes. */
    method SetStrapBit(w: nat, mask: word, val: word) returns (rc: int)
      requires Valid() && w < 2 && IsBit(mask) && val <= 1 && ctl.unlocked
      modifies ctl
      ensures rc <= 0
      ensures ctl.image != old(ctl.image) ==>
                && Refusal(old(ctl.image), w, mask, val) == 0
                && FirstFree(old(ctl.image), w, mask, 6) >= 0
                && ctl.image == SetBits(old(ctl.image), OptionSlot(w, FirstFree(old(ctl.image), w, mask, 6)), mask)
      ensures ctl.reliable && Refusal(old(ctl.image), w, mask, val) < 0 ==> rc == Refusal(old(ctl.image), w, mask, val)
    {
      hide Has, IsBit, FirstFree, StrapIs, Protected;
      var protect: word;
      rc, protect := ReadConfig(30 + w);
      if rc < 0 {
        return;
      }
      ProtectedIs(ctl.image, w, mask);
      if Has(protect, mask) {
        return -EACCES;
      }
      var res: word, f: int;
      rc, res, f := Survey(w, mask);
      if rc < 0 {
        return;
      }
      if f < 0 {
        return -EPERM;
      }
      if (Has(res, mask) && val != 0) || (val == 0 && !Has(res, mask)) {
        return -EALREADY;
      }
      rc := Confirm();
      if rc < 0 {
        return;
      }
      var slot := OptionSlot(w, f);
      AddressRoundTrip(slot);
      ghost var undo, looks, seen;
      rc, undo, looks, seen := Write(ConfAddr(slot), mask);
    }

    /** The loop of otp_write_strap over the six options. */
    method Survey(w: nat, mask: word) returns (rc: int, res: word, f: int)
      requires w < 2 && ctl.unlocked
      modifies ctl
      ensures rc <= 0 && (ctl.reliable ==> rc == 0)
      ensures ctl.unlocked && ctl.image == old(ctl.image)
      ensures rc == 0 ==> f == FirstFree(ctl.image, w, mask, 6)
      ensures rc == 0 ==> (Has(res, mask) <==> StrapIs(ctl.image, w, mask))
    {
      hide Has, Exor;
      rc, res, f := 0, 0, -1;
      for i := 0 to 6
        invariant rc == 0 && ctl.unlocked && ctl.image == old(ctl.image)
        invariant res == Xor(ctl.image, w, i)
        invariant f == FirstFree(ctl.image, w, mask, i)
      {
        var strap: word;
        rc, strap := ReadConfig(OptionSlot(w, i));
        if rc < 0 {
          return;
        }
        res := Exor(res, strap);
        if f < 0 && !Has(strap, mask) {
          f := i;
        }
      }
    }

    /** Any sequence of calls, whatever fails on the way, is a run of allowed changes. */
    method Session(calls: seq<Call>) returns (ghost trace: seq<Image>)
      requires Valid()
      modifies ctl
      ensures IsRun(trace, calls)
      ensures trace[0] == old(ctl.image) && trace[|calls|] == ctl.image
    {
      hide Allowed;
      trace := [ctl.image];
      for i := 0 to |calls|
        invariant |trace| == i + 1 && trace[0] == old(ctl.image) && trace[i] == ctl.image
        invariant forall k :: 0 <= k < i ==> Allowed(trace[k], calls[k], trace[k + 1])
      {
        var rc;
        match calls[i] {
          case Conf(index, bit) => rc := WriteConf(index, bit);
          case Strap(bit, val) => rc := WriteStrap(bit, val);
        }
        trace := trace + [ctl.image];
      }
    }
  }

  /** Why a strap write is refused, or 0. */
  ghost function Refusal(img: Image, w: nat, mask: word, val: word): int
    requires w < 2
  {
    if Protected(img, w, mask) then -EACCES
    else if FirstFree(img, w, mask, 6) < 0 then -EPERM
    else if StrapIs(img, w, mask) == (val == 1) then -EALREADY
    else 0
  }

  /** The same for the strap with that number. */
  ghost function StrapRefusal(img: Image, strap: nat, val: word): int
    requires strap < 64
  {
    if StrapProtected(img, strap) then -EACCES
    else if forall i :: 0 <= i < 6 ==> OptionBit(img, strap, i) then -EPERM
    else if StrapValue(img, strap) == (val == 1) then -EALREADY
    else 0
  }

  /** otp_write_conf in numbers: bit n of word index gets set and nothing else, and only if
      it was clear. */
  ghost predicate ConfOutcome(a: Image, index: nat, n: nat, b: Image, rc: int, reliable: bool) {
    if index >= 16 || n >= 32 then rc == -EINVAL && a == b
    else
      && (a != b ==> NewBit(a, b, index, n))
      && (reliable && Bit(a[index], n) ==> rc == -EALREADY)
  }

  /** otp_write_strap in numbers: the strap's bit gets set in its first free option and
      nothing else, and then the strap has the value asked for. */
  ghost predicate StrapOutcome(a: Image, strap: nat, val: word, b: Image, rc: int, reliable: bool) {
    if strap >= 64 || val > 1 then rc == -EINVAL && a == b
    else
      && (a != b ==>
            && TakesOption(a, b, strap) && !StrapProtected(a, strap)
            && StrapValue(a, strap) == (val == 0) && StrapValue(b, strap) == (val == 1))
      && (reliable && StrapRefusal(a, strap, val) < 0 ==> rc == StrapRefusal(a, strap, val))
  }

  lemma ConfInNumbers(a: Image, index: nat, bit: word, b: Image, rc: int, reliable: bool)
    requires Allowed(a, Conf(index, bit), b)
    requires index >= 16 || bit >= 32 ==> rc == -EINVAL
    requires index < 16 && bit < 32 && reliable ==> Has(a[index], BitMask(bit)) ==> rc == -EALREADY
    ensures ConfOutcome(a, index, bit as nat, b, rc, reliable)
  {
    WordSmall(bit);
    if index < 16 && bit < 32 {
      ShiftByWord(bit);
      if a != b {
        ConfWriteInNumbers(a, index, bit, b, bit as nat);
      }
      hide Has, Bit, BitMask, NewBit, One;
      BitIsHas(a[index], BitMask(bit), bit as nat);
    }
  }

  lemma StrapInNumbers(a: Image, bit: word, val: word, b: Image, rc: int, reliable: bool)
    requires Allowed(a, Strap(bit, val), b)
    requires bit >= 64 || val > 1 ==> rc == -EINVAL
    requires bit < 64 && val <= 1 && reliable ==>
               Refusal(a, WordOf(bit), MaskOf(bit), val) < 0 ==> rc == Refusal(a, WordOf(bit), MaskOf(bit), val)
    ensures StrapOutcome(a, bit as nat, val, b, rc, reliable)
  {
    hide Refusal, StrapRefusal, StrapValue, StrapProtected, TakesOption, WordOf, MaskOf, Allowed;
    WordSmall(bit);
    if bit < 64 && val <= 1 {
      RefusalInNumbers(a, bit, val, bit as nat);
      if a != b {
        StrapWriteInNumbers(a, bit, val, b, bit as nat);
      }
    } else {
      RefusedIsNothing(a, bit, val, b);
    }
  }

  lemma RefusedIsNothing(a: Image, bit: word, val: word, b: Image)
    requires Allowed(a, Strap(bit, val), b) && !(bit < 64 && val <= 1)
    ensures a == b
  {
    hide StrapIs, FirstFree, Protected;
  }

  lemma RefusalInNumbers(img: Image, bit: word, val: word, strap: nat)
    requires bit < 64 && strap == bit as nat
    ensures strap < 64 && Refusal(img, WordOf(bit), MaskOf(bit), val) == StrapRefusal(img, strap, val)
  {
    WordInNumbers(bit);
    MaskInNumbers(bit, strap);
    hide FirstFree, StrapIs, Protected, StrapValue, StrapProtected, WordOf, MaskOf, OptionSlot, One, OptionBit, Has;
    StrapFacts(img, strap, WordOf(bit), MaskOf(bit));
    AllTaken(img, strap, WordOf(bit), MaskOf(bit));
  }

  lemma AllTaken(img: Image, strap: nat, w: nat, mask: word)
    requires strap < 64 && w == strap / 32 && mask == One(strap % 32)
    ensures FirstFree(img, w, mask, 6) < 0 <==> forall i :: 0 <= i < 6 ==> OptionBit(img, strap, i)
  {
    hide FirstFree, OptionSlot, One, OptionBit, Has;
    var f := FirstFree(img, w, mask, 6);
    forall i | 0 <= i < 6 && f < 0
      ensures OptionBit(img, strap, i)
    {
      FirstFreeIsFirst(img, w, mask, 6, i);
      OptionFacts(img, strap, w, mask, i);
    }
    if f >= 0 {
      FirstFreeIsFirst(img, w, mask, 6, f);
      OptionFacts(img, strap, w, mask, f);
    }
  }

  lemma WordSmall(bit: word)
    ensures bit < 32 <==> bit as nat < 32
    ensures bit < 64 <==> bit as nat < 64
  {
  }

  lemma NothingDone(a: Image, call: Call)
    ensures Allowed(a, call, a)
  {
  }

  lemma ConfBitAllowed(a: Image, index: nat, bit: word, b: Image)
    requires index < NUM_OTP_CONF && bit < 32 && OneBit(a, b, index, BitMask(bit))
    requires Has(a[index], BitMask(bit)) ==> a == b
    ensures Allowed(a, Conf(index, bit), b)
  {
  }

  lemma StrapBitAllowed(a: Image, bit: word, val: word, b: Image)
    requires bit < 64 && val <= 1
    requires a != b ==>
               var w, mask := WordOf(bit), MaskOf(bit);
               && Refusal(a, w, mask, val) == 0 && FirstFree(a, w, mask, 6) >= 0
               && b == SetBits(a, OptionSlot(w, FirstFree(a, w, mask, 6)), mask)
    ensures Allowed(a, Strap(bit, val), b)
  {
    hide StrapIs, FirstFree, Protected, MaskOf;
  }

  lemma ProtectedIs(img: Image, w: nat, mask: word)
    requires w < 2
    ensures Protected(img, w, mask) <==> Has(img[30 + w], mask)
  {
  }

  lemma BurntNothing(a: Image, slot: nat, bits: word)
    ensures Burnt(a, a, slot, bits)
  {
  }

  lemma OneBitNone(a: Image, slot: nat, mask: word)
    requires slot < 32
    ensures OneBit(a, a, slot, mask)
  {
  }
}
