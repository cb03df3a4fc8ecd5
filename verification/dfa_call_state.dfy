/**
 * The immutable record of one call in the data-flow analysis: the memory
 * state at the call, the call's arguments and its return value. Its
 * updaters copy the record with one part replaced; its equality and hash
 * look at the memory state and the arguments only. The three parts are
 * abstract values whose own `equals` is value equality and whose own
 * `hashCode` is a function of the value.
 */
module DfaCallStates {

  datatype CallState<M, A, V> = CallState(memoryState: M, arguments: A, returnValue: V)

  function WithMemoryState<M, A, V>(s: CallState<M, A, V>, state: M): (r: CallState<M, A, V>)
    ensures r.memoryState == state && r.arguments == s.arguments && r.returnValue == s.returnValue
  {
    CallState(state, s.arguments, s.returnValue)
  }

  function WithArguments<M, A, V>(s: CallState<M, A, V>, arguments: A): (r: CallState<M, A, V>)
    ensures r.memoryState == s.memoryState && r.arguments == arguments && r.returnValue == s.returnValue
  {
    CallState(s.memoryState, arguments, s.returnValue)
  }

  function WithReturnValue<M, A, V>(s: CallState<M, A, V>, returnValue: V): (r: CallState<M, A, V>)
    ensures r.memoryState == s.memoryState && r.arguments == s.arguments && r.returnValue == returnValue
  {
    CallState(s.memoryState, s.arguments, returnValue)
  }

  /** Each updater touches its own part only: they commute, the last write wins, and rewriting a part with itself changes nothing. */
  lemma UpdatersAreIndependent<M, A, V>(s: CallState<M, A, V>, m1: M, m2: M, a1: A, a2: A, v1: V, v2: V)
    ensures WithArguments(WithMemoryState(s, m1), a1) == WithMemoryState(WithArguments(s, a1), m1)
    ensures WithReturnValue(WithMemoryState(s, m1), v1) == WithMemoryState(WithReturnValue(s, v1), m1)
    ensures WithReturnValue(WithArguments(s, a1), v1) == WithArguments(WithReturnValue(s, v1), a1)
    ensures WithMemoryState(WithMemoryState(s, m1), m2) == WithMemoryState(s, m2)
    ensures WithArguments(WithArguments(s, a1), a2) == WithArguments(s, a2)
    ensures WithReturnValue(WithReturnValue(s, v1), v2) == WithReturnValue(s, v2)
    ensures WithMemoryState(s, s.memoryState) == s && WithArguments(s, s.arguments) == s &&
            WithReturnValue(s, s.returnValue) == s
  {
  }

  /** The argument of `equals`: null, a call-state object (by reference and contents), or any other object. */
  datatype JavaObject<M, A, V> = Null | CallStateObject(ref: nat, state: CallState<M, A, V>) | OtherObject(ref: nat)

  /**
   * `equals`: true for the receiver itself, false for null and for objects of
   * another class, and otherwise the memory states and the arguments compared.
   * `self` is the receiver's reference; the same reference always denotes the
   * same contents.
   */
  function Equals<M(==), A(==), V>(self: nat, s: CallState<M, A, V>, o: JavaObject<M, A, V>): (r: bool)
    requires o.CallStateObject? && o.ref == self ==> o.state == s
    ensures o.CallStateObject? ==> (r <==> s.memoryState == o.state.memoryState && s.arguments == o.state.arguments)
    ensures !o.CallStateObject? ==> !r
  {
    if o.CallStateObject? && o.ref == self then true
    else if !o.CallStateObject? then false
    else s.memoryState == o.state.memoryState && s.arguments == o.state.arguments
  }

  /** Equality is an equivalence, whatever the objects' references. */
  lemma EqualsIsEquivalence<M, A, V>(x: CallState<M, A, V>, y: CallState<M, A, V>, z: CallState<M, A, V>,
                                rx: nat, ry: nat, rz: nat)
    requires rx == ry ==> x == y
    requires ry == rz ==> y == z
    requires rx == rz ==> x == z
    ensures Equals(rx, x, CallStateObject(rx, x))
    ensures Equals(rx, x, CallStateObject(ry, y)) == Equals(ry, y, CallStateObject(rx, x))
    ensures Equals(rx, x, CallStateObject(ry, y)) && Equals(ry, y, CallStateObject(rz, z)) ==>
              Equals(rx, x, CallStateObject(rz, z))
  {
  }

  /** A call state equals any copy of itself with another return value. */
  lemma ReturnValueIgnoredByEquals<M, A, V>(s: CallState<M, A, V>, self: nat, copy: nat, v: V)
    requires self == copy ==> WithReturnValue(s, v) == s
    ensures Equals(self, s, CallStateObject(copy, WithReturnValue(s, v)))
    ensures Equals(copy, WithReturnValue(s, v), CallStateObject(self, s))
  {
  }

  const Two32: int := 0x1_0000_0000
  const IntMin: int := -0x8000_0000
  const IntMax: int := 0x7FFF_FFFF

  /** Java `int` arithmetic: the value congruent to `x` modulo 2^32 in the `int` range. */
  function WrapInt(x: int): (r: int)
    ensures IntMin <= r <= IntMax
    ensures (r - x) % Two32 == 0
    ensures IntMin <= x <= IntMax ==> r == x
  {
    var m := (x - IntMin) % Two32 + IntMin;
    assert (m - x) % Two32 == 0 by {
      assert x - IntMin == Two32 * ((x - IntMin) / Two32) + (x - IntMin) % Two32;
    }
    m
  }

  /** `hashCode`: 31 times the memory state's hash plus the arguments' hash, in `int` arithmetic. */
  function HashCode<M, A, V>(s: CallState<M, A, V>, hashM: M -> int, hashA: A -> int): (r: int)
    ensures IntMin <= r <= IntMax
    ensures (r - (31 * hashM(s.memoryState) + hashA(s.arguments))) % Two32 == 0
  {
    WrapInt(31 * hashM(s.memoryState) + hashA(s.arguments))
  }

  /** Equal call states have equal hashes, so the pair may key hash maps. */
  lemma HashCodeConsistentWithEquals<M, A, V>(s: CallState<M, A, V>, t: CallState<M, A, V>, self: nat, other: nat,
                                              hashM: M -> int, hashA: A -> int)
    requires self == other ==> s == t
    requires Equals(self, s, CallStateObject(other, t))
    ensures HashCode(s, hashM, hashA) == HashCode(t, hashM, hashA)
  {
  }
}
