/** extract_payload.py: carve the ZIP payload out of the self-extracting
    installer, from the first ZIP local-file-header signature to the end. */
module ExtractPayload {
  import opened Common

  /** `b'PK\x03\x04'` */
  const Signature: seq<byte> := [0x50, 0x4B, 0x03, 0x04]

  /** `find_pk_header`: `data.find(b'PK\x03\x04')`, which is -1 when the
      signature is absent (the function's annotation says Optional, but the
      value it returns is this integer). */
  function FindPkHeader(data: seq<byte>): (r: int)
    ensures r == -1 <==> forall i :: !MatchAt(data, Signature, i)
    ensures r != -1 ==> 0 <= r <= |data| - 4 && data[r..r + 4] == Signature
    ensures r != -1 ==> forall i :: 0 <= i < r ==> !MatchAt(data, Signature, i)
  {
    Find(data, Signature)
  }

  /** The carve step of `extract_installer_payload`: `ValueError` when the
      search returns -1, otherwise the bytes written to the output file. */
  function ExtractInstallerPayload(data: seq<byte>): (r: Result<seq<byte>>)
    ensures r.Failure? <==> forall i :: !MatchAt(data, Signature, i)
    ensures r.Success? ==> |r.value| >= 4 && r.value[..4] == Signature
    ensures r.Success? ==> exists offset :: 0 <= offset <= |data| - 4 && r.value == data[offset..]
                                             && forall i :: 0 <= i < offset ==> !MatchAt(data, Signature, i)
  {
    var offset := FindPkHeader(data);
    if offset == -1 then Failure("No PK header found in the file")
    else
      assert data[offset..][..4] == data[offset..offset + 4];
      Success(data[offset..])
  }

  /** The payload is the input with only the shell-script header cut off:
      prefix and payload rebuild the installer, and the prefix holds no
      signature. */
  lemma {:induction false} PayloadSplitsInstaller(data: seq<byte>)
    requires ExtractInstallerPayload(data).Success?
    ensures var payload := ExtractInstallerPayload(data).value;
            var header := data[..|data| - |payload|];
            header + payload == data && forall i :: !MatchAt(header, Signature, i)
  {
    var payload := ExtractInstallerPayload(data).value;
    var offset := FindPkHeader(data);
    var header := data[..|data| - |payload|];
    assert |payload| == |data| - offset;
    assert header == data[..offset];
    assert header + payload == data;
    forall i ensures !MatchAt(header, Signature, i) {
      if MatchAt(header, Signature, i) {
        assert header[i..i + 4] == data[i..i + 4];
        assert MatchAt(data, Signature, i);
      }
    }
  }
}
