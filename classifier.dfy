/** `decode_text`: decides whether the bytes of one C64 program file are
    compressed data, program code, or text in one of three 8-bit encodings. */
module Classifier {
  import opened Values
  import Entropy

  /** The candidate encodings, a closed set. */
  datatype Codec = Ascii | Petscii | Screencode {
    /** The codec name handed to `bytes.decode` and reported in the result. */
    function Name(): string
    {
      match this
      case Ascii => "ascii"
      case Petscii => "petscii_c64en_lc"
      case Screencode => "screencode_c64_lc"
    }

    /** The key of this codec in `encoding_mapping`. */
    function Index(): (k: nat)
      ensures k < |Encodings| && Encodings[k] == this
    {
      match this
      case Ascii => 0
      case Petscii => 1
      case Screencode => 2
    }
  }

  /** `encoding_mapping.values()`, in the order they are tried. */
  const Encodings: seq<Codec> := [Ascii, Petscii, Screencode]

  /** The per-byte tables of the two cbmcodecs2 charmap codecs.  A table
      gives U+FFFD for a byte it has no character for, which is what
      `errors='replace'` produces. */
  datatype Charmaps = Charmaps(petscii: byte -> char, screencode: byte -> char)

  /** U+FFFD REPLACEMENT CHARACTER. */
  const Replacement: char := '\U{FFFD}'

  /** What the codec makes of one byte.  A charmap codec decodes byte by byte. */
  function DecodeByte(codec: Codec, maps: Charmaps, b: byte): char
  {
    match codec
    case Ascii => if b < 128 then b as int as char else Replacement
    case Petscii => maps.petscii(b)
    case Screencode => maps.screencode(b)
  }

  /** `data.decode(encoding=codec.Name(), errors='replace')`: total, one
      character per byte. */
  function Decode(codec: Codec, maps: Charmaps, data: seq<byte>): (text: string)
    ensures |text| == |data|
  {
    seq(|data|, i requires 0 <= i < |data| => DecodeByte(codec, maps, data[i]))
  }

  /** The ASCII codec keeps every byte below 128 as the character of that
      code and replaces every other byte with U+FFFD. */
  lemma AsciiDecode(maps: Charmaps, data: seq<byte>, i: nat)
    requires i < |data|
    ensures data[i] < 128 ==> Decode(Ascii, maps, data)[i] as int == data[i] as int
    ensures Decode(Ascii, maps, data)[i] == Replacement <==> data[i] >= 128
  {
  }

  /** `[character for character in text if character.isalpha()]`. */
  function Letters(text: string, isAlpha: char -> bool): (letters: string)
    ensures |letters| <= |text|
    ensures forall c :: c in letters <==> c in text && isAlpha(c)
  {
    if text == [] then []
    else
      assert text == [text[0]] + text[1..];
      (if isAlpha(text[0]) then [text[0]] else []) + Letters(text[1..], isAlpha)
  }

  /** The letters keep every alphabetic character as often as it occurs, and
      nothing else. */
  lemma {:induction false} LettersCount(text: string, isAlpha: char -> bool)
    ensures forall c :: multiset(Letters(text, isAlpha))[c] == if isAlpha(c) then multiset(text)[c] else 0
  {
    if text != [] {
      assert text == [text[0]] + text[1..];
      LettersCount(text[1..], isAlpha);
    }
  }

  /** `len(chars) / len(decoded)`: the share of alphabetic characters. */
  function Density(text: string, isAlpha: char -> bool): (d: real)
    requires |text| > 0
    ensures 0.0 <= d <= 1.0
    ensures d == 1.0 <==> forall c :: c in text ==> isAlpha(c)
  {
    var n, a := |text|, |Letters(text, isAlpha)|;
    assert a == n <==> forall c :: c in text ==> isAlpha(c) by {
      AllLetters(text, isAlpha);
    }
    Ratio(a, n);
    a as real / n as real
  }

  /** The density counts letters, whatever their order: two decodings with
      the same characters have the same density. */
  lemma DensityIgnoresOrder(t1: string, t2: string, isAlpha: char -> bool)
    requires |t1| > 0 && multiset(t1) == multiset(t2)
    ensures |t2| > 0 && Density(t1, isAlpha) == Density(t2, isAlpha)
  {
    var l1, l2 := Letters(t1, isAlpha), Letters(t2, isAlpha);
    LettersCount(t1, isAlpha);
    LettersCount(t2, isAlpha);
    assert multiset(l1) == multiset(l2);
    assert |l1| == |multiset(l1)| == |multiset(l2)| == |l2|;
    assert |t1| == |multiset(t1)| == |multiset(t2)| == |t2|;
  }

  lemma {:induction false} AllLetters(text: string, isAlpha: char -> bool)
    ensures |Letters(text, isAlpha)| == |text| <==> forall c :: c in text ==> isAlpha(c)
  {
    if text != [] {
      assert text == [text[0]] + text[1..];
      AllLetters(text[1..], isAlpha);
    }
  }

  /** `sum_chars`: the density of each candidate decoding, in codec order. */
  function Densities(maps: Charmaps, isAlpha: char -> bool, data: seq<byte>): (d: seq<real>)
    requires |data| > 0
    ensures |d| == |Encodings|
    ensures forall k :: 0 <= k < |d| ==> 0.0 <= d[k] <= 1.0
  {
    seq(|Encodings|, k requires 0 <= k < |Encodings| => Density(Decode(Encodings[k], maps, data), isAlpha))
  }

  /** `k` is where `np.argmax` stops: the first position holding the maximum. */
  predicate IsFirstMax(xs: seq<real>, k: nat)
  {
    k < |xs| &&
    (forall j :: 0 <= j < |xs| ==> xs[j] <= xs[k]) &&
    (forall j :: 0 <= j < k ==> xs[j] < xs[k])
  }

  /** `np.argmax(xs)`. */
  function ArgMax(xs: seq<real>): (k: nat)
    requires |xs| > 0
    ensures IsFirstMax(xs, k)
  {
    if |xs| == 1 then 0
    else
      var k := ArgMax(xs[..|xs| - 1]);
      if xs[|xs| - 1] > xs[k] then |xs| - 1 else k
  }

  /** At most one position is the first maximum. */
  lemma FirstMaxUnique(xs: seq<real>, k1: nat, k2: nat)
    requires IsFirstMax(xs, k1) && IsFirstMax(xs, k2)
    ensures k1 == k2
  {
    assert xs[k1] == xs[k2];
  }

  /** The first-maximum scan that `np.argmax` performs. */
  method FirstMaximum(xs: seq<real>) returns (best: nat)
    requires |xs| > 0
    ensures IsFirstMax(xs, best)
  {
    best := 0;
    var j := 1;
    while j < |xs|
      invariant 1 <= j <= |xs|
      invariant IsFirstMax(xs[..j], best)
    {
      if xs[j] > xs[best] {
        best := j;
      }
      j := j + 1;
    }
    assert xs[..j] == xs;
  }

  /** The input of `decode_text`: a `bytes` object, or anything else. */
  datatype Argument = Bytes(data: seq<byte>) | NotBytes

  /** The three outcomes of `decode_text`. */
  datatype Classification =
    | Compressed
    | Code(encoding: Codec)
    | Text(content: string, encoding: Codec)
  {
    /** The pair of strings `decode_text` returns for this outcome.  The
        second string tells the compressed marker from the other outcomes. */
    function Rendered(): (p: (string, string))
      ensures p.1 == "Unknown encoding" <==> Compressed?
      ensures Code? ==> p.0 == "Code"
    {
      match this
      case Compressed => ("Compressed file", "Unknown encoding")
      case Code(e) => ("Code", e.Name())
      case Text(t, e) => (t, e.Name())
    }
  }

  /** The outcome `decode_text(arg, threshold)` has, as a function of its
      inputs.  It raises only for input that is not `bytes` and for empty
      bytes that pass the entropy test. */
  function Classify(arg: Argument, threshold: real, maps: Charmaps, isAlpha: char -> bool,
                    entropyOf: seq<real> -> real): (r: Result<Classification>)
    ensures r.Err? <==> arg.NotBytes? ||
                        (arg.data == [] && Entropy.CheckEntropy(arg.data, entropyOf) <= 7.0)
    ensures r.Err? ==> r.error == if arg.NotBytes? then TypeError else ZeroDivisionError
  {
    match arg
    case NotBytes => Err(TypeError)
    case Bytes(data) =>
      if Entropy.CheckEntropy(data, entropyOf) > 7.0 then Ok(Compressed)
      else if data == [] then Err(ZeroDivisionError)
      else
        var d := Densities(maps, isAlpha, data);
        var w := ArgMax(d);
        if d[w] < threshold then Ok(Code(Encodings[w]))
        else Ok(Text(Decode(Encodings[w], maps, data), Encodings[w]))
  }

  /** `decode_text`: decodes under each codec in turn, collecting the texts
      and their densities, then picks the first best. */
  method DecodeText(arg: Argument, threshold: real, maps: Charmaps, isAlpha: char -> bool,
                    entropyOf: seq<real> -> real)
    returns (r: Result<Classification>)
    ensures r == Classify(arg, threshold, maps, isAlpha, entropyOf)
  {
    if arg.NotBytes? {
      return Err(TypeError);
    }
    var data := arg.data;
    if Entropy.CheckEntropy(data, entropyOf) > 7.0 {
      return Ok(Compressed);
    }
    var texts: seq<string> := [];
    var sumChars: seq<real> := [];
    var i := 0;
    while i < |Encodings|
      invariant 0 <= i <= |Encodings|
      invariant |data| > 0 || i == 0
      invariant |texts| == i && |sumChars| == i
      invariant forall k :: 0 <= k < i ==> texts[k] == Decode(Encodings[k], maps, data)
      invariant forall k :: 0 <= k < i ==> sumChars[k] == Density(texts[k], isAlpha)
    {
      var decoded := Decode(Encodings[i], maps, data);
      texts := texts + [decoded];
      var chars := Letters(decoded, isAlpha);
      if |decoded| == 0 {
        return Err(ZeroDivisionError);
      }
      sumChars := sumChars + [|chars| as real / |decoded| as real];
      i := i + 1;
    }
    assert sumChars == Densities(maps, isAlpha, data);
    var best := FirstMaximum(sumChars);
    FirstMaxUnique(sumChars, best, ArgMax(sumChars));
    if sumChars[best] < threshold {
      r := Ok(Code(Encodings[best]));
    } else {
      r := Ok(Text(texts[best], Encodings[best]));
    }
  }

  /** A text that reads "Code" renders exactly as the code outcome does. */
  lemma RenderedCodeText(e: Codec)
    ensures Text("Code", e).Rendered() == Code(e).Rendered()
  {
  }

  /** Anything but `bytes` raises TypeError, whatever the other inputs. */
  lemma NotBytesRaises(threshold: real, maps: Charmaps, isAlpha: char -> bool, entropyOf: seq<real> -> real)
    ensures Classify(NotBytes, threshold, maps, isAlpha, entropyOf) == Err(TypeError)
  {
  }

  /** Above entropy 7 the answer is the compressed marker, independent of the
      threshold, of the codec tables and of what counts as a letter. */
  lemma HighEntropyIsCompressed(data: seq<byte>, t1: real, t2: real, maps1: Charmaps, maps2: Charmaps,
                                isAlpha1: char -> bool, isAlpha2: char -> bool, entropyOf: seq<real> -> real)
    requires Entropy.CheckEntropy(data, entropyOf) > 7.0
    ensures Classify(Bytes(data), t1, maps1, isAlpha1, entropyOf) == Ok(Compressed)
    ensures Classify(Bytes(data), t2, maps2, isAlpha2, entropyOf) == Ok(Compressed)
    ensures Compressed.Rendered() == ("Compressed file", "Unknown encoding")
  {
  }

  /** Empty bytes reach the first division by the decoded length, unless the
      entropy formula puts the empty distribution above 7. */
  lemma EmptyInput(threshold: real, maps: Charmaps, isAlpha: char -> bool, entropyOf: seq<real> -> real)
    ensures Classify(Bytes([]), threshold, maps, isAlpha, entropyOf)
         == if entropyOf([]) > 7.0 then Ok(Compressed) else Err(ZeroDivisionError)
  {
    Entropy.EmptyDistribution();
  }

  /** Below entropy 7 a non-empty input is code or text under the first codec
      with the highest density: code exactly when that density is strictly
      below the threshold, and otherwise the text decoded with that codec. */
  lemma ClassifyDecides(data: seq<byte>, threshold: real, maps: Charmaps, isAlpha: char -> bool,
                        entropyOf: seq<real> -> real)
    requires data != [] && Entropy.CheckEntropy(data, entropyOf) <= 7.0
    ensures var r := Classify(Bytes(data), threshold, maps, isAlpha, entropyOf);
            var d := Densities(maps, isAlpha, data);
            r.Ok? && (r.value.Code? || r.value.Text?) &&
            IsFirstMax(d, r.value.encoding.Index()) &&
            (r.value.Code? <==> d[r.value.encoding.Index()] < threshold) &&
            (r.value.Text? ==> r.value.content == Decode(r.value.encoding, maps, data)) &&
            r.value.Rendered().1 == r.value.encoding.Name()
  {
    var d := Densities(maps, isAlpha, data);
    var w := ArgMax(d);
    FirstMaxUnique(d, w, Encodings[w].Index());
  }

  /** Raising the threshold can only turn text into code, never the reverse,
      and never changes the chosen codec. */
  lemma ThresholdMonotone(data: seq<byte>, t1: real, t2: real, maps: Charmaps, isAlpha: char -> bool,
                          entropyOf: seq<real> -> real)
    requires t1 <= t2
    ensures var r1 := Classify(Bytes(data), t1, maps, isAlpha, entropyOf);
            var r2 := Classify(Bytes(data), t2, maps, isAlpha, entropyOf);
            (r2.Ok? && r2.value.Text? ==> r1 == r2) &&
            (r1.Ok? && r1.value.Code? ==> r2 == r1) &&
            (r1.Ok? && r2.Ok? && !r1.value.Compressed? ==> r1.value.encoding == r2.value.encoding)
  {
  }

  /** When the ASCII decoding is all letters, ASCII wins even where another
      codec ties with it, and the text is kept for any threshold up to 1. */
  lemma AllLettersInAscii(data: seq<byte>, threshold: real, maps: Charmaps, isAlpha: char -> bool,
                          entropyOf: seq<real> -> real)
    requires data != [] && Entropy.CheckEntropy(data, entropyOf) <= 7.0 && threshold <= 1.0
    requires forall c :: c in Decode(Ascii, maps, data) ==> isAlpha(c)
    ensures Classify(Bytes(data), threshold, maps, isAlpha, entropyOf)
         == Ok(Text(Decode(Ascii, maps, data), Ascii))
  {
    var d := Densities(maps, isAlpha, data);
    assert d[0] == 1.0;
    FirstMaxUnique(d, 0, ArgMax(d));
  }
}
