/** The classical arithmetic of `quantum_period_finding`: the bit width of the
    work register, the register layout of the phase-estimation circuit, the
    capacity check against the backend's qubit count, and the decoding of the
    measurement histogram into an integer. */
module Circuit {
  import opened Wrappers
  import opened Arith

  // ---------------------------------------------------------------------------
  // Bit width

  /** `math.ceil(math.log2(N))`, taken as the least `n` with `2^n >= N`. */
  function CeilLog2(N: nat): (n: nat)
    ensures Pow(2, n) >= N
    ensures n > 0 ==> Pow(2, n - 1) < N
    decreases N
  {
    if N <= 1 then 0 else 1 + CeilLog2((N + 1) / 2)
  }

  lemma {:induction false} PowMonotone(i: nat, j: nat)
    requires i <= j
    ensures Pow(2, i) <= Pow(2, j)
    decreases j
  {
    if i < j {
      PowMonotone(i, j - 1);
    }
  }

  /** No smaller width reaches `N`: `CeilLog2(N)` is the least such width. */
  lemma CeilLog2Least(N: nat, k: nat)
    requires Pow(2, k) >= N
    ensures CeilLog2(N) <= k
  {
    var n := CeilLog2(N);
    if k < n {
      PowMonotone(k, n - 1);
    }
  }

  // ---------------------------------------------------------------------------
  // Layout and capacity

  /** The registers of the circuit: the counting register `up`, the work
      register `down`, the ancilla `aux` and the classical register `cl`. */
  datatype CircuitSpec = CircuitSpec(counting: nat, work: nat, ancilla: nat, classical: nat)

  function TotalQubits(c: CircuitSpec): nat {
    c.counting + c.work + c.ancilla
  }

  datatype SizingError = CapacityExceeded(required: nat, available: nat)

  /** The registers declared for a work register of `n` qubits. */
  function Layout(n: nat): (c: CircuitSpec)
    ensures TotalQubits(c) == 3 * n + 1
    ensures c.classical == c.counting == 2 * c.work && c.ancilla == 1
  {
    CircuitSpec(2 * n, n, 1, 2 * n)
  }

  /** The capacity check as the source writes it: it compares `2n + 3`, not the
      `3n + 1` qubits the circuit declares, with the qubit count. */
  function ConfigureAsWritten(N: nat, qubitCount: nat): (r: Result<CircuitSpec, SizingError>)
    ensures r.Err? <==> 2 * CeilLog2(N) + 3 > qubitCount
    ensures r.Err? ==> r.error.required == 2 * CeilLog2(N) + 3 && r.error.available == qubitCount
    ensures r.Ok? ==> r.value == Layout(CeilLog2(N))
  {
    var n := CeilLog2(N);
    if 2 * n + 3 > qubitCount then Err(CapacityExceeded(2 * n + 3, qubitCount))
    else Ok(Layout(n))
  }

  /** With a qubit count of exactly `2n + 3`, the source's check passes for
      every `N > 4`, yet the circuit it then builds needs `n - 2` qubits more. */
  lemma AsWrittenAdmitsOversizedCircuit(N: nat)
    requires N > 4
    ensures ConfigureAsWritten(N, 2 * CeilLog2(N) + 3).Ok?
    ensures TotalQubits(ConfigureAsWritten(N, 2 * CeilLog2(N) + 3).value) > 2 * CeilLog2(N) + 3
  {
  }

  /** The concrete instance: N = 15 on an 11-qubit backend. */
  lemma AsWrittenFifteenOnElevenQubits()
    ensures ConfigureAsWritten(15, 11).Ok?
    ensures TotalQubits(ConfigureAsWritten(15, 11).value) == 13
  {
    assert CeilLog2(15) == 4;
  }

  /** The capacity check with the circuit's own qubit count: the circuit is
      built exactly when it fits, and then its work register holds every
      residue modulo `N` and its counting register resolves `N * N` phases. */
  function Configure(N: nat, qubitCount: nat): (r: Result<CircuitSpec, SizingError>)
    ensures r.Err? <==> TotalQubits(Layout(CeilLog2(N))) > qubitCount
    ensures r.Err? ==> r.error.required > r.error.available == qubitCount
    ensures r.Ok? ==> TotalQubits(r.value) <= qubitCount
    ensures r.Ok? ==> Pow(2, r.value.work) >= N && Pow(2, r.value.counting) >= N * N
    ensures r.Ok? ==> r.value.classical == r.value.counting && r.value.ancilla == 1
  {
    var n := CeilLog2(N);
    var c := Layout(n);
    if TotalQubits(c) > qubitCount then Err(CapacityExceeded(TotalQubits(c), qubitCount))
    else
      PowDouble(2, n);
      MulMonotone(N, Pow(2, n), N);
      MulMonotone(N, Pow(2, n), Pow(2, n));
      Ok(c)
  }

  /** From `N = 3` on the work register has at least two qubits, so the
      circuit's `3n + 1` qubits are at least the `2n + 3` the source checks:
      the corrected check passes exactly when the source's check passes and
      the circuit fits. */
  lemma ConfigureRefinesAsWritten(N: nat, qubitCount: nat)
    requires N >= 3
    ensures CeilLog2(N) >= 2 && TotalQubits(Layout(CeilLog2(N))) >= 2 * CeilLog2(N) + 3
    ensures Configure(N, qubitCount).Ok? <==>
      ConfigureAsWritten(N, qubitCount).Ok? && TotalQubits(Layout(CeilLog2(N))) <= qubitCount
  {
    assert Pow(2, 1) == 2;
  }

  // ---------------------------------------------------------------------------
  // Decoding the measurement histogram

  /** One entry of the `counts` dictionary: a measured bitstring and how often
      it was seen. The sequence keeps the dictionary's iteration order. */
  datatype Outcome = Outcome(bits: string, count: nat)

  /** `max(counts.items(), key=lambda x: x[1])`: the index of the first entry
      of largest count, or `None` for an empty histogram. */
  function MostFrequent(counts: seq<Outcome>): (r: Option<nat>)
    ensures r.None? <==> |counts| == 0
    ensures r.Some? ==> r.value < |counts|
    ensures r.Some? ==> forall j :: 0 <= j < |counts| ==> counts[j].count <= counts[r.value].count
    ensures r.Some? ==> forall j :: 0 <= j < r.value ==> counts[j].count < counts[r.value].count
  {
    if |counts| == 0 then None
    else
      var last := |counts| - 1;
      match MostFrequent(counts[..last])
      case None => Some(0)
      case Some(i) => if counts[last].count > counts[i].count then Some(last) else Some(i)
  }

  /** The first entry of largest count is unique, so `MostFrequent` is
      determined by what its contract says about it. */
  lemma MostFrequentIsFirstMaximum(counts: seq<Outcome>, i: nat)
    requires i < |counts|
    requires forall j :: 0 <= j < |counts| ==> counts[j].count <= counts[i].count
    requires forall j :: 0 <= j < i ==> counts[j].count < counts[i].count
    ensures MostFrequent(counts) == Some(i)
  {
  }

  predicate IsBitString(s: string) {
    forall i :: 0 <= i < |s| ==> s[i] == '0' || s[i] == '1'
  }

  /** The value of a bitstring read most significant bit first. */
  function BitsValue(s: string): (v: nat)
    requires IsBitString(s)
    ensures v < Pow(2, |s|)
    decreases |s|
  {
    if |s| == 0 then 0
    else 2 * BitsValue(s[..|s| - 1]) + (if s[|s| - 1] == '1' then 1 else 0)
  }

  /** `int(s, 2)`: fails on the empty string and on any character other than
      `0` and `1`. */
  function ParseBinary(s: string): (r: Option<nat>)
    ensures r.Some? <==> |s| > 0 && IsBitString(s)
    ensures r.Some? ==> r.value < Pow(2, |s|)
  {
    if |s| > 0 && IsBitString(s) then Some(BitsValue(s)) else None
  }

  /** The `w`-bit string, most significant bit first, that a measurement of
      value `v` produces. */
  function ToBits(v: nat, w: nat): (s: string)
    ensures |s| == w && IsBitString(s)
    decreases w
  {
    if w == 0 then "" else ToBits(v / 2, w - 1) + (if v % 2 == 1 then "1" else "0")
  }

  /** Parsing recovers the value of every fixed-width measurement. */
  lemma {:induction false} BitsValueOfToBits(v: nat, w: nat)
    requires v < Pow(2, w)
    ensures BitsValue(ToBits(v, w)) == v
    decreases w
  {
    if w > 0 {
      var s := ToBits(v, w);
      assert s[..w - 1] == ToBits(v / 2, w - 1);
      BitsValueOfToBits(v / 2, w - 1);
    }
  }

  /** Every bitstring is the fixed-width encoding of its value. */
  lemma {:induction false} ToBitsOfBitsValue(s: string)
    requires IsBitString(s)
    ensures ToBits(BitsValue(s), |s|) == s
    decreases |s|
  {
    if |s| > 0 {
      var init := s[..|s| - 1];
      var v := BitsValue(s);
      var b := if s[|s| - 1] == '1' then 1 else 0;
      ModUnique(v, 2, BitsValue(init), b);
      ToBitsOfBitsValue(init);
      assert s == init + [s[|s| - 1]];
    }
  }

  datatype DecodeError = EmptyHistogram | NotBinary(bits: string)

  /** `measured_phase = int(max(counts.items(), key=lambda x: x[1])[0], 2)`. */
  function MeasuredPhase(counts: seq<Outcome>): (r: Result<nat, DecodeError>)
    ensures r.Err? && r.error == EmptyHistogram <==> |counts| == 0
    ensures r.Ok? ==> (exists i :: 0 <= i < |counts| && MostFrequent(counts) == Some(i) &&
                          IsBitString(counts[i].bits) && r.value == BitsValue(counts[i].bits))
  {
    match MostFrequent(counts)
    case None => Err(EmptyHistogram)
    case Some(i) =>
      match ParseBinary(counts[i].bits)
      case None => Err(NotBinary(counts[i].bits))
      case Some(v) => Ok(v)
  }

  /** On a histogram of `width`-bit measurements, as the `2n`-bit classical
      register produces, decoding succeeds and yields a value below
      `2^width`: the value of the most frequent measurement. */
  lemma MeasuredPhaseInRange(counts: seq<Outcome>, width: nat)
    requires |counts| > 0 && width > 0
    requires forall j :: 0 <= j < |counts| ==> |counts[j].bits| == width && IsBitString(counts[j].bits)
    ensures MeasuredPhase(counts).Ok?
    ensures MeasuredPhase(counts).value < Pow(2, width)
    ensures ToBits(MeasuredPhase(counts).value, width) == counts[MostFrequent(counts).value].bits
  {
    var i := MostFrequent(counts).value;
    ToBitsOfBitsValue(counts[i].bits);
  }
}
