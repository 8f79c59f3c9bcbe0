/** `detect_container_ext`: guess a container from the first 64 bytes of a
    file. The verdict is the first signature, in a fixed priority order, that
    the header carries; an unreadable file gets no verdict. */
module Sniff {
  import opened Common

  const HeaderLength: nat := 64

  /** Extensions in the order the signatures are tried. */
  const Priority: seq<string> := [".mp4", ".webm", ".mp3", ".wav", ".mkv"]

  const Ftyp: seq<byte> := [0x66, 0x74, 0x79, 0x70]                       // "ftyp"
  const Ebml: seq<byte> := [0x1A, 0x45, 0xDF, 0xA3]                       // EBML magic
  const Id3: seq<byte> := [0x49, 0x44, 0x33]                              // "ID3"
  const Riff: seq<byte> := [0x52, 0x49, 0x46, 0x46]                       // "RIFF"
  const Wave: seq<byte> := [0x57, 0x41, 0x56, 0x45]                       // "WAVE"
  const Matroska: seq<byte> := [0x6D, 0x61, 0x74, 0x72, 0x6F, 0x73, 0x6B, 0x61] // "matroska"

  /** `f.read(64)`. */
  function ReadHeader(data: seq<byte>): (h: seq<byte>)
    ensures |h| <= HeaderLength && StartsWith(data, h)
    ensures |data| >= HeaderLength ==> |h| == HeaderLength
    ensures |data| < HeaderLength ==> h == data
  {
    if |data| <= HeaderLength then data else data[..HeaderLength]
  }

  /** The signature each extension stands for. */
  predicate HasSignature(hdr: seq<byte>, ext: string) {
    match ext
    case ".mp4" => Contains(hdr, Ftyp)
    case ".webm" => StartsWith(hdr, Ebml)
    case ".mp3" => StartsWith(hdr, Id3)
    case ".wav" => StartsWith(hdr, Riff) && Contains(hdr, Wave)
    case ".mkv" => Contains(LowerBytes(hdr), Matroska)
    case _ => false
  }

  /** `detect_container_ext`; `file` is `None` when the file cannot be read. */
  function DetectContainerExt(file: Option<seq<byte>>): (r: Option<string>)
    ensures file.None? ==> r.None?
    ensures r.Some? ==> r.value in Priority
    ensures r.Some? ==> forall k :: 0 <= k < |Priority| && Priority[k] == r.value ==>
              HasSignature(ReadHeader(file.value), Priority[k])
              && forall j :: 0 <= j < k ==> !HasSignature(ReadHeader(file.value), Priority[j])
    ensures file.Some? && r.None? ==> forall k :: 0 <= k < |Priority| ==> !HasSignature(ReadHeader(file.value), Priority[k])
  {
    match file
    case None => None
    case Some(data) =>
      var hdr := ReadHeader(data);
      if Contains(hdr, Ftyp) then Some(".mp4")
      else if StartsWith(hdr, Ebml) then Some(".webm")
      else if StartsWith(hdr, Id3) then Some(".mp3")
      else if hdr[..if |hdr| < 4 then |hdr| else 4] == Riff && Contains(hdr, Wave) then Some(".wav")
      else if Contains(LowerBytes(hdr), Matroska) then Some(".mkv")
      else None
  }

  /** The verdict is decided by the header's signatures alone, in priority
      order: whichever signature comes first wins. */
  lemma FirstSignatureWins(data: seq<byte>, k: nat)
    requires k < |Priority|
    requires HasSignature(ReadHeader(data), Priority[k])
    requires forall j :: 0 <= j < k ==> !HasSignature(ReadHeader(data), Priority[j])
    ensures DetectContainerExt(Some(data)) == Some(Priority[k])
  {
  }

  /** A header that begins with a signature and is padded with zero bytes. */
  function SampleHeader(ext: string): (h: seq<byte>)
    requires ext in Priority
    ensures |h| == HeaderLength
  {
    var sig: seq<byte> :=
      match ext
      case ".mp4" => [0x00, 0x00, 0x00, 0x18] + Ftyp
      case ".webm" => Ebml
      case ".mp3" => Id3
      case ".wav" => Riff + [0x00, 0x00, 0x00, 0x00] + Wave
      case _ => [0x4D, 0x61, 0x54, 0x52, 0x4F, 0x53, 0x4B, 0x41];   // "MaTROSKA"
    sig + seq(HeaderLength - |sig|, _ => 0x00)
  }

  lemma NoFtyp(h: seq<byte>)
    requires 0x66 !in h
    ensures !HasSignature(h, ".mp4")
  {
    NotContainsWithoutHead(h, Ftyp);
  }

  /** Writing a signature into a header and sniffing it gives the extension
      back, whatever the file holds after the first 64 bytes. */
  lemma SignatureRoundTrip(ext: string, rest: seq<byte>)
    requires ext in Priority
    ensures DetectContainerExt(Some(SampleHeader(ext) + rest)) == Some(ext)
  {
    var data := SampleHeader(ext) + rest;
    var h := SampleHeader(ext);
    assert ReadHeader(data) == h;
    if ext == ".mp4" {
      ContainsAt(h, Ftyp, 4);
      FirstSignatureWins(data, 0);
    } else {
      assert 0x66 !in h;
      NoFtyp(h);
      if ext == ".webm" {
        FirstSignatureWins(data, 1);
      } else if ext == ".mp3" {
        FirstSignatureWins(data, 2);
      } else if ext == ".wav" {
        ContainsAt(h, Wave, 8);
        FirstSignatureWins(data, 3);
      } else {
        assert LowerBytes(h)[..8] == Matroska;
        ContainsAt(LowerBytes(h), Matroska, 0);
        FirstSignatureWins(data, 4);
      }
    }
  }

  /** A genuine Matroska file starts with the EBML magic, so it is named
      `.webm` even when its header spells out `matroska`. */
  lemma EbmlShadowsMatroska(data: seq<byte>)
    requires StartsWith(data, Ebml)
    requires !Contains(ReadHeader(data), Ftyp)
    ensures DetectContainerExt(Some(data)) == Some(".webm")
  {
    assert ReadHeader(data)[..4] == data[..4];
    FirstSignatureWins(data, 1);
  }

  /** Signatures past the 64th byte are not seen: a file of 64 zero bytes
      followed by `ftyp` gets no verdict. */
  lemma FtypPastHeaderIgnored()
    ensures DetectContainerExt(Some(seq(HeaderLength, _ => 0x00) + Ftyp)) == None
  {
    var data: seq<byte> := seq(HeaderLength, _ => 0x00) + Ftyp;
    var h := ReadHeader(data);
    assert h == seq(HeaderLength, _ => 0x00);
    NoFtyp(h);
    NotContainsWithoutHead(h, Wave);
    assert LowerBytes(h) == h;
    NotContainsWithoutHead(LowerBytes(h), Matroska);
    assert h[0] == 0x00;
    assert !StartsWith(h, Ebml) && !StartsWith(h, Id3) && !StartsWith(h, Riff);
  }
}
