/** The callers of the codec in nsMsgI18N.cpp: UTF-7 text and IMAP folder names. */
module FolderNames {
  import opened Alphabet
  import opened Outcomes
  import E = EncoderMachine
  import D = DecoderMachine
  import Reference
  import Canonical
  import PlainText
  import RoundTrip
  import Encoder
  import Decoder

  const IMAP_UTF7_BUF_LENGTH: nat := 100

  /** The buffer of one unit a byte is large enough for every input. */
  method CopyUTF7toUTF16(src: seq<Byte>) returns (dest: seq<Unit>)
    ensures dest == Reference.Decode(Utf7, src) && |dest| <= |src|
  {
    dest := DecodeWhole(Utf7, src);
  }

  method CopyMUTF7toUTF16(src: seq<Byte>) returns (dest: seq<Unit>)
    ensures dest == Reference.Decode(ModifiedUtf7, src) && |dest| <= |src|
  {
    dest := DecodeWhole(ModifiedUtf7, src);
  }

  method DecodeWhole(v: Variant, src: seq<Byte>) returns (dest: seq<Unit>)
    ensures dest == Reference.Decode(v, src) && |dest| <= |src|
  {
    var converter := new Decoder.BasicUTF7Decoder(v);
    var buffer := new Unit[|src|];
    D.FittingUnitsComplete(v, D.RESET, src, |src|);
    Reference.DecoderIsDecode(v, D.RESET, src);
    hide D.Run;
    var res, inLen, outLen := converter.ConvertNoBuff(src, buffer, 0, |src|);
    assert res == OK && inLen == |src|;
    dest := buffer[..outLen];
  }

  // ---- Encoding through the fixed buffer ----

  /** At no call of the loop does `&` meet exactly one free byte of the buffer. A caller can
      evaluate this before the call. */
  predicate EscapesFit(s: E.State, src: seq<Unit>)
    requires E.Valid(s)
    decreases |src|
  {
    src == [] ||
    (var r := E.Run(ModifiedUtf7, s, src, IMAP_UTF7_BUF_LENGTH);
     E.RunProgresses(ModifiedUtf7, s, src, IMAP_UTF7_BUF_LENGTH);
     && (forall k | 0 <= k < |src| :: !E.EscapeMeetsOneByte(ModifiedUtf7, s, src, IMAP_UTF7_BUF_LENGTH, k))
     && EscapesFit(r.state, src[r.consumed..]))
  }

  /** Every call of the loop keeps to the buffer. */
  predicate CallsKeepToBuffer(s: E.State, src: seq<Unit>)
    requires E.Valid(s)
    decreases |src|
  {
    src == [] ||
    (var r := E.Run(ModifiedUtf7, s, src, IMAP_UTF7_BUF_LENGTH);
     E.RunProgresses(ModifiedUtf7, s, src, IMAP_UTF7_BUF_LENGTH);
     |r.out| <= IMAP_UTF7_BUF_LENGTH && CallsKeepToBuffer(r.state, src[r.consumed..]))
  }

  /** The fixed buffer suffices exactly when no `&` meets one free byte. */
  lemma {:induction false} BufferSufficesIff(s: E.State, src: seq<Unit>)
    requires E.Valid(s)
    ensures CallsKeepToBuffer(s, src) <==> EscapesFit(s, src)
    decreases |src|
  {
    if src != [] {
      hide E.Run, E.EscapeMeetsOneByte;
      var r := E.Run(ModifiedUtf7, s, src, IMAP_UTF7_BUF_LENGTH);
      E.RunProgresses(ModifiedUtf7, s, src, IMAP_UTF7_BUF_LENGTH);
      E.OverrunsRoom(ModifiedUtf7, s, src, IMAP_UTF7_BUF_LENGTH);
      BufferSufficesIff(r.state, src[r.consumed..]);
    }
  }

  /** In particular for every name without `&`. */
  lemma {:induction false} NamesWithoutEscapeFit(s: E.State, src: seq<Unit>)
    requires E.Valid(s) && EscChar(ModifiedUtf7) !in src
    ensures EscapesFit(s, src)
    decreases |src|
  {
    if src != [] {
      var r := E.Run(ModifiedUtf7, s, src, IMAP_UTF7_BUF_LENGTH);
      E.RunProgresses(ModifiedUtf7, s, src, IMAP_UTF7_BUF_LENGTH);
      NamesWithoutEscapeFit(r.state, src[r.consumed..]);
    }
  }

  /** And for every name whose encoding fits the buffer as a whole, such as any of at most
      28 units. */
  lemma ShortNamesFit(src: seq<Unit>)
    requires |Reference.Encode(ModifiedUtf7, src)| <= IMAP_UTF7_BUF_LENGTH || |src| <= 28
    ensures EscapesFit(E.RESET, src)
  {
    Reference.EncoderIsEncode(ModifiedUtf7, src);
    E.FinishedLength(ModifiedUtf7, src);
    E.FittingTextKeepsToRoom(ModifiedUtf7, E.RESET, src, IMAP_UTF7_BUF_LENGTH);
    var r := E.Run(ModifiedUtf7, E.RESET, src, IMAP_UTF7_BUF_LENGTH);
    assert src[r.consumed..] == [];
    if src != [] { E.RunProgresses(ModifiedUtf7, E.RESET, src, IMAP_UTF7_BUF_LENGTH); }
    assert CallsKeepToBuffer(r.state, []);
    assert CallsKeepToBuffer(E.RESET, src);
    BufferSufficesIff(E.RESET, src);
  }

  /** Not for every name: here `&` comes when 99 bytes have been written. */
  lemma NotAllNamesFit()
    ensures !CallsKeepToBuffer(E.RESET, seq(99, _ => 97) + [EscChar(ModifiedUtf7)])
  {
    var src := seq(99, _ => 97) + [EscChar(ModifiedUtf7)];
    PlainText.PlainIsCopied(ModifiedUtf7, seq(99, _ => 97));
    assert src[..99] == seq(99, _ => 97);
    assert E.EscapeMeetsOneByte(ModifiedUtf7, E.RESET, src, IMAP_UTF7_BUF_LENGTH, 99);
    BufferSufficesIff(E.RESET, src);
  }

  /** One call of the loop, with or without the condition. */
  lemma OneCall(s: E.State, rest: seq<Unit>)
    requires E.Valid(s) && rest != []
    ensures var r := E.Run(ModifiedUtf7, s, rest, IMAP_UTF7_BUF_LENGTH);
            && 0 < r.consumed <= |rest| && |r.out| <= IMAP_UTF7_BUF_LENGTH + 1
            && (CallsKeepToBuffer(s, rest)
                <==> |r.out| <= IMAP_UTF7_BUF_LENGTH && CallsKeepToBuffer(r.state, rest[r.consumed..]))
            && E.Finished(ModifiedUtf7, s, rest) == r.out + E.Finished(ModifiedUtf7, r.state, rest[r.consumed..])
  {
    hide E.Run, E.Finished, E.EscapeMeetsOneByte;
    E.RunProgresses(ModifiedUtf7, s, rest, IMAP_UTF7_BUF_LENGTH);
    E.OverrunsRoom(ModifiedUtf7, s, rest, IMAP_UTF7_BUF_LENGTH);
    E.FinishedAfterCall(ModifiedUtf7, s, rest, IMAP_UTF7_BUF_LENGTH);
  }

  /** For every name. The cell behind the buffer stands for the byte there; `behind` tells
      whether some call wrote to it. */
  method CopyUTF16toMUTF7(src: seq<Unit>) returns (dest: seq<Byte>, ghost behind: bool)
    ensures dest == Reference.Encode(ModifiedUtf7, src)
    ensures behind <==> !EscapesFit(E.RESET, src)
  {
    hide E.ShiftRun, E.Finished, E.ShiftText, E.Shifted, E.Valid;
    hide Reference.Encode, Overwrite, EscapesFit, CallsKeepToBuffer;
    NothingDone(src);
    var converter := new Encoder.BasicUTF7Encoder(ModifiedUtf7);
    var buffer := new Char[IMAP_UTF7_BUF_LENGTH + 1];
    dest, behind := ConvertName(converter, buffer, src);
    NothingLeft(converter.State());
    ghost var close, before := E.ShiftText(ModifiedUtf7, converter.State(), Direct), buffer[..];
    var res, written := converter.FinishNoBuff(buffer, 0, IMAP_UTF7_BUF_LENGTH);
    OverwrittenPart<Char>(before, 0, close);
    if written > 0 {
      dest := Appended(dest, buffer[..written], close);
    }
  }

  /** The loop: all but the closing shift. */
  method ConvertName(converter: Encoder.BasicUTF7Encoder, buffer: array<Char>, src: seq<Unit>)
    returns (dest: seq<Byte>, ghost behind: bool)
    requires converter.Valid() && converter.variant == ModifiedUtf7 && buffer.Length == IMAP_UTF7_BUF_LENGTH + 1
    modifies converter, buffer
    ensures converter.Valid()
    ensures var s, t := old(converter.State()), converter.State();
            && E.Finished(ModifiedUtf7, s, src) == dest + E.ShiftText(ModifiedUtf7, t, Direct)
            && (behind <==> !CallsKeepToBuffer(s, src))
  {
    hide E.Run, E.Finished, E.ShiftText, E.Valid, Overwrite, CallsKeepToBuffer, Appended;
    ghost var s, all := converter.State(), E.Finished(ModifiedUtf7, converter.State(), src);
    var pos := 0;
    dest, behind := [], false;
    assert src[0..] == src && [] + all == all;
    while pos < |src|
      invariant converter.Valid() && pos <= |src|
      invariant CallsKeepToBuffer(s, src) <==> !behind && CallsKeepToBuffer(converter.State(), src[pos..])
      invariant all == dest + E.Finished(ModifiedUtf7, converter.State(), src[pos..])
      decreases |src| - pos
    {
      ghost var rest := src[pos..];
      OneCall(converter.State(), rest);
      ghost var out, before := E.Run(ModifiedUtf7, converter.State(), rest, IMAP_UTF7_BUF_LENGTH).out, buffer[..];
      var res, read, written := converter.ConvertNoBuffNoErr(src[pos..], buffer, 0, IMAP_UTF7_BUF_LENGTH);
      OverwrittenPart<Char>(before, 0, out);
      dest := Appended(dest, buffer[..written], out);
      behind := behind || written > IMAP_UTF7_BUF_LENGTH;
      pos := pos + read;
      assert rest[read..] == src[pos..];
    }
    assert src[pos..] == [];
    NothingLeft(converter.State());
  }

  /** `aDest.Append`; what the buffer holds are bytes. */
  function Appended(dest: seq<Byte>, part: seq<Char>, ghost out: seq<Byte>): (r: seq<Byte>)
    requires part == out
    ensures r == dest + out
  {
    assert forall k :: 0 <= k < |part| ==> part[k] == out[k];
    dest + part
  }

  lemma NothingDone(src: seq<Unit>)
    ensures E.Valid(E.RESET) && E.Finished(ModifiedUtf7, E.RESET, src) == Reference.Encode(ModifiedUtf7, src)
    ensures CallsKeepToBuffer(E.RESET, src) <==> EscapesFit(E.RESET, src)
  {
    hide CallsKeepToBuffer, EscapesFit, Reference.Encode, E.Finished;
    Reference.EncoderIsEncode(ModifiedUtf7, src);
    BufferSufficesIff(E.RESET, src);
  }

  lemma NothingLeft(s: E.State)
    requires E.Valid(s)
    ensures CallsKeepToBuffer(s, [])
    ensures E.Finished(ModifiedUtf7, s, []) == E.ShiftText(ModifiedUtf7, s, Direct)
    ensures E.ShiftRun(ModifiedUtf7, s, Direct, IMAP_UTF7_BUF_LENGTH)
         == Outcome(OK, E.Shifted(s, Direct), 0, E.ShiftText(ModifiedUtf7, s, Direct))
  {}

  // ---- Recognising modified UTF-7 ----

  datatype FolderName =
    | FromMutf7(name: seq<Unit>)
    | FromUtf8          // handed to the UTF-8 decoder

  predicate IsAscii(src: seq<Char>) {
    forall k :: 0 <= k < |src| ==> src[k] >= 0
  }

  function AsBytes(src: seq<Char>): (t: seq<Byte>)
    requires IsAscii(src)
    ensures t == src
  {
    if src == [] then [] else [src[0]] + AsBytes(src[1..])
  }

  /** The test by decoding and re-encoding recognises exactly the encodings of names, which
      are the ASCII strings of the grammar of section 5.1.3 of RFC 3501; the name found is the
      only one with that encoding. */
  method CopyFolderNameToUTF16(src: seq<Char>) returns (r: FolderName)
    ensures r.FromMutf7? <==> exists name: seq<Unit> :: Reference.Encode(ModifiedUtf7, name) == src
    ensures r.FromMutf7? <==> IsAscii(src) && Canonical.Canonical(ModifiedUtf7, AsBytes(src))
    ensures r.FromMutf7? ==>
      && Reference.Encode(ModifiedUtf7, r.name) == src
      && forall name: seq<Unit> :: Reference.Encode(ModifiedUtf7, name) == src ==> name == r.name
  {
    hide Canonical.Canonical, Reference.Encode, Reference.Decode, EscapesFit, IsAscii;
    forall name: seq<Unit> | Reference.Encode(ModifiedUtf7, name) == src
      ensures IsAscii(src) && name == Reference.Decode(ModifiedUtf7, AsBytes(src))
    {
      OnlyName(name, src);
    }
    if IsAscii(src) {
      var bytes := AsBytes(src);
      var dest := CopyMUTF7toUTF16(bytes);
      var tmp, _ := CopyUTF16toMUTF7(dest);
      SurvivesIffInGrammar(bytes);
      if src == tmp {
        return FromMutf7(dest);
      }
    }
    r := FromUtf8;
  }

  /** An encoding is ASCII, and of the one name that it decodes to. */
  lemma OnlyName(name: seq<Unit>, src: seq<Char>)
    requires Reference.Encode(ModifiedUtf7, name) == src
    ensures IsAscii(src) && name == Reference.Decode(ModifiedUtf7, AsBytes(src))
  {
    hide Reference.Encode, Reference.Decode;
    var bytes := Reference.Encode(ModifiedUtf7, name);
    assert forall k :: 0 <= k < |src| ==> src[k] == bytes[k];
    DecodeInvertsEncode(name);
  }

  lemma SurvivesIffInGrammar(t: seq<Byte>)
    ensures Reference.Encode(ModifiedUtf7, Reference.Decode(ModifiedUtf7, t)) == t
       <==> Canonical.Canonical(ModifiedUtf7, t)
  {
    Reference.DecoderIsDecode(ModifiedUtf7, D.RESET, t);
    Reference.EncoderIsEncode(ModifiedUtf7, Reference.Decode(ModifiedUtf7, t));
    Canonical.SurvivesIffCanonical(ModifiedUtf7, t);
  }

  /** Distinct names have distinct encodings. */
  lemma DecodeInvertsEncode(name: seq<Unit>)
    ensures Reference.Decode(ModifiedUtf7, Reference.Encode(ModifiedUtf7, name)) == name
  {
    Reference.EncoderIsEncode(ModifiedUtf7, name);
    RoundTrip.RoundTrip(ModifiedUtf7, D.RESET, name);
    Reference.DecoderIsDecode(ModifiedUtf7, D.RESET, Reference.Encode(ModifiedUtf7, name));
  }
}
