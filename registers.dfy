/**
 * The control-register bank (`RegBlock`): twelve 32-bit registers with
 * fixed default values, addressed by name or by list index.
 */
module Registers {
  import opened Results

  /** Number of registers in the bank. */
  const RegCount := 12

  /** 2^32: registers hold unsigned 32-bit words. */
  const Word := 0x1_0000_0000

  /** Why a key could not be resolved: Python raises KeyError or IndexError. */
  datatype KeyFailure = KeyError(name: string) | IndexError(index: int)

  /** A register key is either a name or a raw list index. */
  datatype Key = Name(name: string) | Index(index: int)

  /** The value each register holds when the bank is created. */
  function Defaults(): (d: seq<int>)
    ensures |d| == RegCount
    ensures forall i :: 0 <= i < RegCount ==> 0 <= d[i] < Word
  {
    [0x0000_0000, 0x3FFF_FFFF, 0x3FFF_FFFF, 0x1D7B_9A90, 0x6237_C54F, 0x1D7B_9A90,
     0x6237_C54F, 0x7BA3_751D, 11, 0x0000_0576, 0, 0]
  }

  /** The name-to-index table of the bank. */
  const Names: map<string, int> :=
    map["mixer" := 0, "vol_left" := 1, "vol_right" := 2, "lpf" := 3, "hpf" := 4,
        "bpf_low" := 5, "bpf_high" := 6, "bsf" := 7, "distortion" := 8,
        "tremolo" := 9, "delay_left" := 10, "delay_right" := 11]

  /**
   * `value & 0xFFFFFFFF` on an arbitrary-precision (two's-complement) integer:
   * the unique word congruent to `value` modulo 2^32.
   */
  function Mask32(value: int): (r: int)
    ensures 0 <= r < Word
    ensures (value - r) % Word == 0
    ensures 0 <= value < Word ==> r == value
  {
    value % Word
  }

  /**
   * Resolves a key to a slot of the register list. A name goes through the
   * table; an integer is used as a Python list index, so -12..-1 count from
   * the end and anything else out of range fails.
   */
  function Resolve(key: Key): (r: Result<nat, KeyFailure>)
    ensures r.Ok? ==> r.value < RegCount
    ensures key.Name? ==> (r.Ok? <==> key.name in Names)
    ensures key.Name? && key.name in Names ==> r == Ok(Names[key.name])
    ensures key.Index? ==> (r.Ok? <==> -RegCount <= key.index < RegCount)
    ensures key.Index? && 0 <= key.index < RegCount ==> r == Ok(key.index)
    ensures key.Index? && -RegCount <= key.index < 0 ==> r == Ok(key.index + RegCount)
    ensures key.Name? && key.name !in Names ==> r == Err(KeyError(key.name))
    ensures key.Index? && !(-RegCount <= key.index < RegCount) ==> r == Err(IndexError(key.index))
  {
    match key
    case Name(n) =>
      if n in Names then Ok(Names[n]) else Err(KeyError(n))
    case Index(i) =>
      if 0 <= i < RegCount then Ok(i)
      else if -RegCount <= i < 0 then Ok(i + RegCount)
      else Err(IndexError(i))
  }

  /** The register contents after `set(key, value)` on `regs`. */
  function Assign(regs: seq<int>, key: Key, value: int): (r: Result<seq<int>, KeyFailure>)
    requires |regs| == RegCount
    ensures r.Ok? <==> Resolve(key).Ok?
    ensures r.Err? ==> r.error == Resolve(key).error
    ensures r.Ok? ==> |r.value| == RegCount && r.value[Resolve(key).value] == Mask32(value)
    ensures r.Ok? ==> forall j :: 0 <= j < RegCount && j != Resolve(key).value ==> r.value[j] == regs[j]
  {
    match Resolve(key)
    case Ok(i) => Ok(regs[i := Mask32(value)])
    case Err(e) => Err(e)
  }

  /** The value `get(key)` reads from `regs`. */
  function Lookup(regs: seq<int>, key: Key): (r: Result<int, KeyFailure>)
    requires |regs| == RegCount
    ensures r.Ok? <==> Resolve(key).Ok?
    ensures r.Err? ==> r.error == Resolve(key).error
    ensures r.Ok? && AllWords(regs) ==> 0 <= r.value < Word
  {
    match Resolve(key)
    case Ok(i) => Ok(regs[i])
    case Err(e) => Err(e)
  }

  /** Every register holds a 32-bit unsigned word. */
  ghost predicate AllWords(regs: seq<int>)
  {
    forall i :: 0 <= i < |regs| ==> 0 <= regs[i] < Word
  }

  /** The register names in index order, as the name table of `RegBlock` assigns them. */
  const NamesInOrder: seq<string> :=
    ["mixer", "vol_left", "vol_right", "lpf", "hpf", "bpf_low", "bpf_high", "bsf",
     "distortion", "tremolo", "delay_left", "delay_right"]

  /**
   * The name table maps exactly the twelve register names onto 0..11:
   * the table and the ordered name list are mutual inverses.
   */
  lemma NamesAreABijection()
    ensures forall i :: 0 <= i < RegCount ==> NamesInOrder[i] in Names && Names[NamesInOrder[i]] == i
    ensures forall n :: n in Names ==> 0 <= Names[n] < RegCount && NamesInOrder[Names[n]] == n
  {
    NamesFromOrder();
    NamesToOrder();
  }

  lemma NamesFromOrder()
    ensures forall i :: 0 <= i < RegCount ==> NamesInOrder[i] in Names && Names[NamesInOrder[i]] == i
  {
  }

  lemma NamesToOrder()
    ensures forall n :: n in Names ==> 0 <= Names[n] < RegCount && NamesInOrder[Names[n]] == n
  {
  }

  /** `set` stores the value masked to 32 bits, and a following `get` of the same key returns it. */
  lemma SetThenGet(regs: seq<int>, key: Key, value: int)
    requires |regs| == RegCount
    ensures Assign(regs, key, value).Ok? <==> Resolve(key).Ok?
    ensures Assign(regs, key, value).Ok? ==>
              Lookup(Assign(regs, key, value).value, key) == Ok(Mask32(value))
  {
  }

  /** `set` changes only the resolved slot: every other key reads back as before. */
  lemma SetLeavesOthers(regs: seq<int>, key: Key, other: Key, value: int)
    requires |regs| == RegCount
    requires Resolve(key).Ok? && Resolve(other).Ok? && Resolve(key).value != Resolve(other).value
    ensures Lookup(Assign(regs, key, value).value, other) == Lookup(regs, other)
  {
  }

  /** `set` keeps every register a 32-bit word, whatever integer it is given. */
  lemma SetKeepsWords(regs: seq<int>, key: Key, value: int)
    requires |regs| == RegCount && AllWords(regs)
    ensures Assign(regs, key, value).Ok? ==> AllWords(Assign(regs, key, value).value)
  {
  }

  /** The register bank object. */
  class RegBlock {
    var regs: array<int>

    ghost predicate Valid()
      reads this, regs
    {
      regs.Length == RegCount && AllWords(regs[..])
    }

    constructor ()
      ensures Valid() && fresh(regs)
      ensures regs[..] == Defaults()
    {
      regs := new int[RegCount](i requires 0 <= i < RegCount => Defaults()[i]);
      new;
      assert regs[..] == Defaults();
    }

    /** `set`: masks `value` to 32 bits and stores it in the slot `key` resolves to, or fails. */
    method Set(key: Key, value: int) returns (failure: Option<KeyFailure>)
      requires Valid()
      modifies regs
      ensures Valid()
      ensures failure == None <==> Resolve(key).Ok?
      ensures failure.Some? ==> failure.value == Resolve(key).error && regs[..] == old(regs[..])
      ensures failure == None ==> regs[..] == Assign(old(regs[..]), key, value).value
    {
      match Resolve(key)
      case Ok(i) =>
        regs[i] := Mask32(value);
        failure := None;
      case Err(e) =>
        failure := Some(e);
    }

    /** `get`: the current word in the slot `key` resolves to, or the lookup failure. */
    function Get(key: Key): (r: Result<int, KeyFailure>)
      requires Valid()
      reads this, regs
      ensures r.Ok? <==> Resolve(key).Ok?
      ensures r.Ok? ==> 0 <= r.value < Word && r.value == regs[Resolve(key).value]
    {
      Lookup(regs[..], key)
    }

    /** `dump`: a copy of all twelve registers, in index order, each a 32-bit word. */
    function Dump(): (d: seq<int>)
      requires Valid()
      reads this, regs
      ensures |d| == RegCount && AllWords(d)
      ensures forall i :: 0 <= i < RegCount ==> d[i] == regs[i]
    {
      regs[..]
    }
  }
}
