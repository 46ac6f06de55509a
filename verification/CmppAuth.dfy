/** The login authenticator of the CMPP client, a user of the MD5 context. */
module CmppAuth {
  import opened CBytes
  import opened Md5Spec
  import opened Md5Context

  /** Source_Addr of the login packet: strncpy of at most six bytes into a cleared field. */
  function SourceAddr(spCode: seq<byte>): (a: seq<byte>)
    ensures |a| == 6
  {
    if |spCode| >= 6 then spCode[..6] else spCode + Zeros(6 - |spCode|)
  }

  /** What CMPP 2.0 asks to be hashed: Source_Addr, nine zero bytes, the shared secret, the timestamp. */
  function Prescribed(spCode: seq<byte>, secret: seq<byte>, timestamp: seq<byte>): seq<byte> {
    SourceAddr(spCode) + Zeros(9) + secret + timestamp
  }

  /** What the client hashes: the code itself, zeros up to fifteen bytes, the secret, the timestamp. */
  function Hashed(spCode: seq<byte>, secret: seq<byte>, timestamp: seq<byte>): seq<byte>
    requires |spCode| <= 15
  {
    spCode + Zeros(15 - |spCode|) + secret + timestamp
  }

  lemma PrescribedForShortCodes(spCode: seq<byte>, secret: seq<byte>, timestamp: seq<byte>)
    requires |spCode| <= 6
    ensures Hashed(spCode, secret, timestamp) == Prescribed(spCode, secret, timestamp)
      == spCode + Zeros(6 - |spCode|) + Zeros(9) + secret + timestamp
  {
    assert Zeros(15 - |spCode|) == Zeros(6 - |spCode|) + Zeros(9);
  }

  /** The client hashes the prescribed message exactly when its code fits the address field. */
  lemma PrescribedWhenItFits(spCode: seq<byte>, secret: seq<byte>, timestamp: seq<byte>)
    requires |spCode| <= 15 && 0 !in spCode
    ensures Hashed(spCode, secret, timestamp) == Prescribed(spCode, secret, timestamp) <==> |spCode| <= 6
    ensures |spCode| > 6 ==> Prescribed(spCode, secret, timestamp) == spCode[..6] + Zeros(9) + secret + timestamp
  {
    var h, p := Hashed(spCode, secret, timestamp), Prescribed(spCode, secret, timestamp);
    if |spCode| <= 6 {
      PrescribedForShortCodes(spCode, secret, timestamp);
    } else {
      assert h[6] == spCode[6] && spCode[6] in spCode;
      assert p[6] == Zeros(9)[0];
    }
  }

  /** The digest computed by doCMDLogin. The length test of the zero loop is unsigned in C, so
      the code must not exceed fifteen bytes. */
  method Authenticator(spCode: seq<byte>, secret: seq<byte>, timeStr: seq<byte>) returns (digest: seq<byte>)
    requires |spCode| <= 15 && |secret| < TWO_32 && |timeStr| == 10
    ensures digest == MD5(spCode + Zeros(15 - |spCode|) + secret + timeStr)
    ensures |spCode| <= 6 ==> digest == MD5(Prescribed(spCode, secret, timeStr))
  {
    hide MD5, MD5Context.Valid, Prescribed, SourceAddr;
    var md5 := new MD5Context();
    md5.Update(spCode);
    var i := 0;
    while i < 9 + 6 - |spCode|
      invariant i <= 15 - |spCode|
      invariant md5.Valid() && fresh(md5) && fresh(md5.buf) && fresh(md5.bits) && fresh(md5.inn)
      invariant md5.message == spCode + Zeros(i)
    {
      md5.Update([0]);
      i := i + 1;
    }
    md5.Update(secret);
    md5.Update(timeStr);
    digest := md5.Final();
    if |spCode| <= 6 {
      PrescribedForShortCodes(spCode, secret, timeStr);
    }
  }
}
