/** What single operations of the stream buffer do, in terms of its contents and
    positions. */
module StreamBufferEffects {
  import opened Machine
  import opened StreamBufferSpec
  import opened StreamBufferRuns

  /** A new buffer: no input, and the smaller of the maximum and 128 places. */
  lemma NewIsEmpty(max: nat)
    requires max < SIZE_LIMIT
    ensures var s := Init(max);
      s.max == max && s.gptr == s.egptr == s.pptr == 0 && s.epptr == if max < 128 then max else 128
  {
  }

  /** `prepare` leaves everything in place when there is room behind the put
      position. Otherwise the input moves to the front, the get area covers all of
      it, and old places keep their characters as far as the input did not move
      over them; new places are zero. */
  lemma PrepareExact(s: State, n: nat)
    requires s.Valid() && n < SIZE_LIMIT && s.Size() + n <= s.max
    ensures Step(s, Prepare(n)).Ok?
    ensures var t := Step(s, Prepare(n)).s;
      && (n <= |s.Room()| ==> t == s)
      && (n > |s.Room()| ==>
            && t.gptr == 0 && t.egptr == t.pptr == s.Size() && t.epptr == Max(s.epptr, s.Size() + n)
            && t.Data() == s.Data()
            && forall k :: t.pptr <= k < |t.mem| ==> t.mem[k] == if k < |s.mem| then s.mem[k] else 0)
  {
  }

  /** A write into prepared places fills exactly these. */
  lemma FillExact(s: State, at: nat, w: seq<Byte>)
    requires s.Valid() && Legal(s, Fill(at, w))
    ensures Step(s, Fill(at, w)).Ok?
    ensures var t := Step(s, Fill(at, w)).s;
      && t == s.(mem := t.mem) && |t.mem| == |s.mem| && t.Data() == s.Data()
      && t.Room() == s.Room()[..at] + w + s.Room()[at + |w|..]
  {
  }

  /** `commit` and `consume` move positions only, and bring the end of the get area
      up to date. */
  lemma PositionsOnly(s: State, n: nat, base: nat)
    requires s.Valid() && n < SIZE_LIMIT && base + |s.mem| < SIZE_LIMIT
    ensures var t := Commit(s, n); t == s.(pptr := t.pptr, egptr := t.pptr)
    ensures var t := Consume(s, n, base); t == s.(gptr := t.gptr, egptr := s.pptr)
  {
  }

  /** `overflow` with a character throws exactly when the input is as long as the
      maximum; when the put area is full, it makes 128 places, or as many as the
      maximum leaves. Without a character it does nothing. */
  lemma OverflowExact(s: State, c: IntType)
    requires s.Valid()
    ensures Step(s, OverflowOp(c)).LengthError? <==> c.Char? && s.Size() == s.max
    ensures Step(s, OverflowOp(c)).LengthError? || c.Eof? ==> Step(s, OverflowOp(c)).s == s
    ensures Step(s, OverflowOp(c)).Ok? && c.Char? ==>
      var t := Step(s, OverflowOp(c)).s;
      && t.Data() == s.Data() + [c.b]
      && t.epptr == if s.pptr < s.epptr then s.epptr else Max(s.epptr, Min(s.Size() + 128, s.max))
  {
  }

  /** `underflow` and the inherited read only move the positions of the get area. */
  lemma ReadsMoveOnly(s: State)
    requires s.Valid()
    ensures Step(s, UnderflowOp).s == s.(egptr := if s.Data() == [] then s.egptr else s.pptr)
    ensures var t := Step(s, BumpOp).s;
      && t == s.(gptr := t.gptr, egptr := t.egptr)
      && t.gptr == s.gptr + (if s.Data() == [] then 0 else 1)
      && t.egptr == if s.gptr == s.egptr && s.Data() != [] then s.pptr else s.egptr
  {
  }

  /** The suggested read size is the largest within the limit and what the maximum
      leaves that the present capacity holds, or that is at most 512. */
  lemma ReadSizeIsLargest(s: State, capacity: nat, limit: nat, m: nat)
    requires s.Valid() && |s.mem| <= capacity < SIZE_LIMIT && limit < SIZE_LIMIT
    ensures var n := ReadSize(s, capacity, limit);
      && n <= limit && s.Size() + n <= s.max && (n <= 512 || s.Size() + n <= capacity)
      && (m <= limit && s.Size() + m <= s.max && (m <= 512 || s.Size() + m <= capacity) ==> m <= n)
  {
  }
}
