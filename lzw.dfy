/**
 * The LZW dictionary decoder behind GIF image data. The decoder is fed the
 * reassembled sub-block bytes; the codes themselves are taken as given (the
 * bit extraction of the original does not read the fed bytes), so decoding is
 * stated over a sequence of codes, while the number of fed bytes still bounds
 * the loop through the running bit offset.
 */
module Lzw {
  import opened Bytes
  import opened Outcome

  /** Decoding cannot go on: there is no first code, or a dictionary index lies past the end. */
  datatype LzwError = MissingFirstCode | CodeOutOfRange

  /** The strings [0], [1], ..., [n - 1]. */
  function Singletons(n: nat): (d: seq<seq<uint8>>)
    requires n <= 0x100
    ensures |d| == n
    ensures forall k | 0 <= k < n :: d[k] == [k]
  {
    if n == 0 then [] else Singletons(n - 1) + [[n - 1]]
  }

  lemma {:induction false} Pow2AtMost256(s: nat)
    requires s <= 8
    ensures Pow2(s) <= 0x100
    decreases 8 - s
  {
    if s < 8 {
      Pow2AtMost256(s + 1);
    }
  }

  /** The dictionary a code size of `s` starts with, and returns to on a clear code: one entry per byte value below 2^s. */
  function Seed(s: nat): (d: seq<seq<uint8>>)
    requires s <= 8
    ensures |d| == Pow2(s)
    ensures forall k | 0 <= k < |d| :: d[k] == [k]
  {
    Pow2AtMost256(s);
    Singletons(Pow2(s))
  }

  /** The clear code and the end-of-information code, fixed by the initial code size. */
  function ClearCode(s: nat): nat { Pow2(s) }
  function EndCode(s: nat): nat { Pow2(s) + 1 }

  /**
   * The decoder between two codes: the dictionary, the current code width,
   * the previous code, the one-byte string `string2` (first byte of the last
   * string emitted), the output so far and the bit offset of the next code.
   */
  datatype Decoder = Decoder(dict: seq<seq<uint8>>, codeSize: nat, prevCode: nat, string2: seq<uint8>,
                             output: seq<uint8>, bitOffset: nat)

  ghost predicate NonEmptyEntries(dict: seq<seq<uint8>>)
  {
    forall k | 0 <= k < |dict| :: |dict[k]| > 0
  }

  /** What holds between any two codes: the seed is still the dictionary's prefix and no entry is empty. */
  ghost predicate Wellformed(d: Decoder, s: nat)
  {
    && 2 <= s <= 8
    && Pow2(s) <= |d.dict|
    && d.dict[..Pow2(s)] == Seed(s)
    && NonEmptyEntries(d.dict)
    && |d.string2| == 1
  }

  /** The state after the first code `c`: its seed entry emitted verbatim, the offset one code width on. */
  function Initial(s: nat, c: nat): (d: Decoder)
    requires 2 <= s <= 8 && c < Pow2(s)
    ensures Wellformed(d, s)
  {
    Pow2AtMost256(s);
    var b: uint8 := c;
    Decoder(Seed(s), s, c, [b], [b], s)
  }

  /**
   * The string a code other than clear and end stands for: its own entry when
   * the dictionary has one, otherwise the previous code's entry followed by
   * `string2`.
   */
  function Emitted(d: Decoder, code: nat): Result<seq<uint8>, LzwError>
  {
    if code < |d.dict| then Ok(d.dict[code])
    else if d.prevCode < |d.dict| then Ok(d.dict[d.prevCode] + d.string2)
    else Err(CodeOutOfRange)
  }

  /** The code width grows by one when the dictionary, before the new entry, holds more than 2^codeSize + 1 strings. */
  function NextCodeSize(dictSize: nat, codeSize: nat): nat
  {
    if dictSize - 1 > Pow2(codeSize) then codeSize + 1 else codeSize
  }

  /** One ordinary code: emit its string, widen if due, and add the previous entry extended by the emitted string's first byte. */
  function Absorb(d: Decoder, code: nat): Result<Decoder, LzwError>
    requires NonEmptyEntries(d.dict)
  {
    match Emitted(d, code)
    case Err(e) => Err(e)
    case Ok(string1) =>
      if d.prevCode >= |d.dict| then Err(CodeOutOfRange)
      else
        Ok(Decoder(d.dict + [d.dict[d.prevCode] + [string1[0]]], NextCodeSize(|d.dict|, d.codeSize), code,
                   [string1[0]], d.output + string1, d.bitOffset))
  }

  /** An ordinary code keeps the seed prefix and the non-empty entries: the dictionary shrinks only on a clear code. */
  lemma AbsorbKeepsWellformed(d: Decoder, code: nat, s: nat)
    requires Wellformed(d, s)
    ensures Absorb(d, code).Ok? ==> Wellformed(Absorb(d, code).value, s)
  {
    if Absorb(d, code).Ok? {
      var d' := Absorb(d, code).value;
      assert d'.dict[..Pow2(s)] == d.dict[..Pow2(s)];
    }
  }

  /** What one code of the loop leads to: the decoder for the next code, or the end of decoding with its result. */
  datatype Step = Next(decoder: Decoder) | Stop(result: Result<seq<uint8>, LzwError>)

  /**
   * One code: the offset moves one code width on; a clear code restores the
   * seed and the initial width and keeps the previous code; the end code
   * stops with the output so far; any other code is absorbed.
   */
  function CodeStep(s: nat, code: nat, d: Decoder): (st: Step)
    requires Wellformed(d, s)
    ensures st.Next? ==> Wellformed(st.decoder, s)
  {
    var d1 := d.(bitOffset := d.bitOffset + d.codeSize);
    if code == ClearCode(s) then
      SeedWellformed(d1.(dict := Seed(s), codeSize := s), s);
      Next(d1.(dict := Seed(s), codeSize := s))
    else if code == EndCode(s) then Stop(Ok(d1.output))
    else
      AbsorbKeepsWellformed(d1, code, s);
      match Absorb(d1, code)
      case Err(e) => Stop(Err(e))
      case Ok(d2) => Next(d2)
  }

  lemma SeedWellformed(d: Decoder, s: nat)
    requires 2 <= s <= 8 && d.dict == Seed(s) && |d.string2| == 1
    ensures Wellformed(d, s)
  {
    assert d.dict[..Pow2(s)] == d.dict;
  }

  /**
   * The decoding loop from code `k` on: it runs while the bit offset lies
   * inside the fed bytes and codes remain, one `CodeStep` per code.
   */
  function Run(s: nat, inputSize: nat, codes: seq<uint16>, d: Decoder, k: nat): Result<seq<uint8>, LzwError>
    requires k <= |codes| && Wellformed(d, s)
    decreases |codes| - k
  {
    if d.bitOffset / 8 >= inputSize || k == |codes| then Ok(d.output)
    else
      match CodeStep(s, codes[k], d)
      case Stop(r) => r
      case Next(d') => Run(s, inputSize, codes, d', k + 1)
  }

  /** A step only ever appends to the output. */
  lemma CodeStepExtendsOutput(s: nat, code: nat, d: Decoder)
    requires Wellformed(d, s)
    ensures var st := CodeStep(s, code, d);
      && (st.Next? ==> d.output <= st.decoder.output)
      && (st.Stop? && st.result.Ok? ==> d.output <= st.result.value)
  {
    var d1 := d.(bitOffset := d.bitOffset + d.codeSize);
    if code != ClearCode(s) && code != EndCode(s) && Absorb(d1, code).Ok? {
      AbsorbEffect(d1, code, s);
    }
  }

  /** The loop only ever appends to the output. */
  lemma {:induction false} RunExtendsOutput(s: nat, inputSize: nat, codes: seq<uint16>, d: Decoder, k: nat)
    requires k <= |codes| && Wellformed(d, s)
    ensures Run(s, inputSize, codes, d, k).Ok? ==> d.output <= Run(s, inputSize, codes, d, k).value
    decreases |codes| - k
  {
    if d.bitOffset / 8 < inputSize && k < |codes| {
      CodeStepExtendsOutput(s, codes[k], d);
      var st := CodeStep(s, codes[k], d);
      if st.Next? {
        RunExtendsOutput(s, inputSize, codes, st.decoder, k + 1);
      }
    }
  }

  /**
   * The whole decoding: an initial code size outside 2..8 yields no output;
   * otherwise the first code must name a seed entry, which is emitted as it
   * is, and the loop continues from the second code.
   */
  function Decode(s: nat, inputSize: nat, codes: seq<uint16>): (r: Result<seq<uint8>, LzwError>)
    ensures s < 2 || s > 8 ==> r == Ok([])
    ensures 2 <= s <= 8 && r.Ok? ==> 0 < |codes| && codes[0] < Pow2(s) && [codes[0]] <= r.value
  {
    if s < 2 || s > 8 then Ok([])
    else if |codes| == 0 then Err(MissingFirstCode)
    else if codes[0] >= Pow2(s) then Err(CodeOutOfRange)
    else
      RunExtendsOutput(s, inputSize, codes, Initial(s, codes[0]), 1);
      Run(s, inputSize, codes, Initial(s, codes[0]), 1)
  }

  /**
   * An ordinary code emits the entry it names, or, past the end of the
   * dictionary, the previous entry plus `string2`; the output grows by exactly
   * that string; exactly one entry is appended, the previous entry extended by
   * the string's first byte; the width grows by one exactly when the
   * dictionary held more than 2^codeSize + 1 strings; and the code becomes the
   * previous one.
   */
  lemma AbsorbEffect(d: Decoder, code: nat, s: nat)
    requires Wellformed(d, s)
    requires Absorb(d, code).Ok?
    ensures var d' := Absorb(d, code).value;
      var str := d'.output[|d.output|..];
      && d.output <= d'.output
      && (code < |d.dict| ==> str == d.dict[code])
      && (code >= |d.dict| ==> str == d.dict[d.prevCode] + d.string2)
      && |d'.dict| == |d.dict| + 1 && d'.dict[..|d.dict|] == d.dict
      && d'.dict[|d.dict|] == d.dict[d.prevCode] + [str[0]]
      && (d'.codeSize == d.codeSize + 1 <==> |d.dict| - 1 > Pow2(d.codeSize))
      && (d'.codeSize == d.codeSize <==> |d.dict| - 1 <= Pow2(d.codeSize))
      && d'.prevCode == code && d'.string2 == [str[0]]
  {
    var d' := Absorb(d, code).value;
    var str := Emitted(d, code).value;
    assert d'.output == d.output + str;
    assert d'.output[|d.output|..] == str;
  }

  /** An ordinary code fails exactly when it lies past the dictionary's end and so does the previous code. */
  lemma AbsorbFails(d: Decoder, code: nat, s: nat)
    requires Wellformed(d, s)
    ensures Absorb(d, code).Err? <==> d.prevCode >= |d.dict|
  {
  }

  /** No codes are reserved for clear and end: the first entry added after the seed gets code 2^s, the clear code. */
  lemma FirstNewEntryAtClearCode(s: nat, c: nat, code: nat)
    requires 2 <= s <= 8 && c < Pow2(s)
    requires Absorb(Initial(s, c), code).Ok?
    ensures var d' := Absorb(Initial(s, c), code).value;
      |d'.dict| == ClearCode(s) + 1 && d'.dict[ClearCode(s)][0] == c && |d'.dict[ClearCode(s)]| == 2
  {
  }

  /** Inside the fed bytes, decoding from code `k` is that code's step, then decoding from the next code. */
  lemma RunSteps(s: nat, inputSize: nat, codes: seq<uint16>, d: Decoder, k: nat)
    requires k < |codes| && Wellformed(d, s) && d.bitOffset / 8 < inputSize
    ensures var st := CodeStep(s, codes[k], d);
      && (st.Stop? ==> Run(s, inputSize, codes, d, k) == st.result)
      && (st.Next? ==> Run(s, inputSize, codes, d, k) == Run(s, inputSize, codes, st.decoder, k + 1))
  {
  }

  /** A clear code restores the seed and the initial width, and leaves the previous code as it was. */
  lemma ClearRestoresSeed(s: nat, d: Decoder)
    requires Wellformed(d, s)
    ensures CodeStep(s, ClearCode(s), d)
      == Next(Decoder(Seed(s), s, d.prevCode, d.string2, d.output, d.bitOffset + d.codeSize))
  {
  }

  /** The end code stops decoding with the output so far. */
  lemma EndCodeStops(s: nat, d: Decoder)
    requires Wellformed(d, s)
    ensures CodeStep(s, EndCode(s), d) == Stop(Ok(d.output))
  {
  }

  /** Any other code is absorbed, and decoding goes on from the state it leaves, or fails with it. */
  lemma OrdinaryCodeContinues(s: nat, code: nat, d: Decoder)
    requires Wellformed(d, s) && code != ClearCode(s) && code != EndCode(s)
    ensures var d1 := d.(bitOffset := d.bitOffset + d.codeSize);
      && (Absorb(d1, code).Err? ==> CodeStep(s, code, d) == Stop(Err(Absorb(d1, code).error)))
      && (Absorb(d1, code).Ok? ==> CodeStep(s, code, d) == Next(Absorb(d1, code).value))
  {
  }

  /**
   * Because the previous code survives a clear code, the first ordinary code
   * after a clear can index past the re-seeded dictionary: with code size 2,
   * in the codes 0 6 4 0 the code 6 lies past the seed and is absorbed, 4
   * clears, and the last 0 fails because the previous code is still 6.
   */
  lemma StalePreviousCodeAfterClear()
    ensures Decode(2, 100, [0, 6, 4, 0]) == Err(CodeOutOfRange)
  {
    var codes: seq<uint16> := [0, 6, 4, 0];
    var seed: seq<seq<uint8>> := [[0], [1], [2], [3]];
    assert Pow2(2) == 4;
    assert Seed(2) == seed;
    var d0 := Initial(2, 0);
    assert d0 == Decoder(seed, 2, 0, [0], [0], 2);
    var d1 := Decoder(seed + [[0, 0]], 2, 6, [0], [0, 0, 0], 4);
    assert Absorb(d0.(bitOffset := 4), 6) == Ok(d1) by {
      assert seed[0] + [0] == [0, 0];
      assert [0] + [0, 0] == [0, 0, 0];
    }
    var d2 := Decoder(seed, 2, 6, [0], [0, 0, 0], 6);
    assert Absorb(d2.(bitOffset := 8), 0) == Err(CodeOutOfRange);
    assert Run(2, 100, codes, d2, 3) == Err(CodeOutOfRange);
    assert Run(2, 100, codes, d1, 2) == Err(CodeOutOfRange);
  }

  /**
   * The decoder object: the initial code size and the bytes fed to it, as the
   * GIF renderer sets them up before asking for the decompressed data.
   */
  class LzwDecoder {
    var initialCodeSize: uint8
    var inputBuffer: seq<uint8>

    constructor ()
      ensures initialCodeSize == 0 && inputBuffer == []
    {
      initialCodeSize := 0;
      inputBuffer := [];
    }

    method SetCodeSize(size: uint8)
      modifies this
      ensures initialCodeSize == size && inputBuffer == old(inputBuffer)
    {
      initialCodeSize := size;
    }

    /** Feeds one more byte. */
    method Push(b: uint8)
      modifies this
      ensures inputBuffer == old(inputBuffer) + [b] && initialCodeSize == old(initialCodeSize)
    {
      inputBuffer := inputBuffer + [b];
    }

    /** Fills a fresh dictionary with the seed, one single-byte entry at a time. */
    static method SeedDictionary(s: nat) returns (dictionary: seq<seq<uint8>>)
      requires 2 <= s <= 8
      ensures dictionary == Seed(s)
    {
      Pow2AtMost256(s);
      dictionary := [];
      var i := 0;
      while i < Pow2(s)
        invariant i <= Pow2(s)
        invariant dictionary == Singletons(i)
      {
        dictionary := dictionary + [[i]];
        i := i + 1;
      }
    }

    /**
     * One code that is neither clear nor end: the string it stands for is
     * emitted, the width grows if due, and the previous entry extended by the
     * string's first byte is added; `ok` is false where the original indexes
     * past the dictionary.
     */
    static method AbsorbCode(dictionary: seq<seq<uint8>>, codeSize: nat, prevCode: nat, string2: seq<uint8>,
                             output: seq<uint8>, bitOffset: nat, currCode: nat)
      returns (ok: bool, dictionary': seq<seq<uint8>>, codeSize': nat, string2': seq<uint8>, output': seq<uint8>)
      requires NonEmptyEntries(dictionary)
      ensures var r := Absorb(Decoder(dictionary, codeSize, prevCode, string2, output, bitOffset), currCode);
        && (ok <==> r.Ok?)
        && (ok ==> r.value == Decoder(dictionary', codeSize', currCode, string2', output', bitOffset))
    {
      ghost var d := Decoder(dictionary, codeSize, prevCode, string2, output, bitOffset);
      var string1;
      if currCode >= |dictionary| {
        if prevCode >= |dictionary| {
          return false, dictionary, codeSize, string2, output;
        }
        string1 := dictionary[prevCode] + string2;
      } else {
        string1 := dictionary[currCode];
      }
      assert Emitted(d, currCode) == Ok(string1);
      codeSize' := codeSize;
      if |dictionary| - 1 > Pow2(codeSize) {
        codeSize' := codeSize + 1;
      }
      output' := output + string1;
      string2' := [string1[0]];
      if prevCode >= |dictionary| {
        return false, dictionary, codeSize, string2, output;
      }
      var stringToInsert := dictionary[prevCode] + string2';
      dictionary' := dictionary + [stringToInsert];
      ok := true;
    }

    /** Decodes `codes`, the codes read from the fed bytes, exactly as `Decode` specifies. */
    method GetDecompressedData(codes: seq<uint16>) returns (r: Result<seq<uint8>, LzwError>)
      ensures r == Decode(initialCodeSize, |inputBuffer|, codes)
    {
      if initialCodeSize < 2 || initialCodeSize > 8 {
        return Ok([]);
      }
      var s: nat := initialCodeSize;
      var codeSize: nat := s;
      var currentBitOffset: nat := 0;
      var dictionary := SeedDictionary(s);
      if |codes| == 0 {
        return Err(MissingFirstCode);
      }
      var prevCode: nat := codes[0];
      currentBitOffset := currentBitOffset + codeSize;
      if prevCode >= |dictionary| {
        return Err(CodeOutOfRange);
      }
      var string1 := dictionary[prevCode];
      var string2 := [string1[0]];
      var output := string1;
      var k := 1;
      var inputSize := |inputBuffer|;
      ghost var goal := Decode(initialCodeSize, inputSize, codes);
      assert Decoder(dictionary, codeSize, prevCode, string2, output, currentBitOffset) == Initial(s, prevCode);
      assert Run(s, inputSize, codes, Initial(s, prevCode), 1) == goal;
      while currentBitOffset / 8 < inputSize && k < |codes|
        invariant 1 <= k <= |codes|
        invariant Wellformed(Decoder(dictionary, codeSize, prevCode, string2, output, currentBitOffset), s)
        invariant Run(s, inputSize, codes, Decoder(dictionary, codeSize, prevCode, string2, output, currentBitOffset), k)
          == goal
        decreases |codes| - k
      {
        ghost var d := Decoder(dictionary, codeSize, prevCode, string2, output, currentBitOffset);
        var currCode := codes[k];
        k := k + 1;
        currentBitOffset := currentBitOffset + codeSize;
        ghost var d1 := Decoder(dictionary, codeSize, prevCode, string2, output, currentBitOffset);
        assert d1 == d.(bitOffset := d.bitOffset + d.codeSize);
        ghost var st := CodeStep(s, currCode, d);
        RunSteps(s, inputSize, codes, d, k - 1);
        if currCode == ClearCode(s) {
          codeSize := s;
          dictionary := SeedDictionary(s);
          ClearRestoresSeed(s, d);
          assert Decoder(dictionary, codeSize, prevCode, string2, output, currentBitOffset) == st.decoder;
          continue;
        }
        if currCode == EndCode(s) {
          EndCodeStops(s, d);
          return Ok(output);
        }
        OrdinaryCodeContinues(s, currCode, d);
        var ok;
        ok, dictionary, codeSize, string2, output :=
          AbsorbCode(dictionary, codeSize, prevCode, string2, output, currentBitOffset, currCode);
        if !ok {
          return Err(CodeOutOfRange);
        }
        prevCode := currCode;
        assert Decoder(dictionary, codeSize, prevCode, string2, output, currentBitOffset) == st.decoder;
      }
      return Ok(output);
    }
  }
}
