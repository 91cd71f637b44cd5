/**
 * The wipe certificates of secure-data-wiper/utils/certificate_generator.py.
 *
 * `generate_certificate` builds a dict of the certificate's fields, a
 * verification record carrying the SHA-256 of its own `json.dumps(...,
 * sort_keys=True)` text, and a signature: the SHA-512 of the sorted text of
 * every field but `digital_signature`.  It stores the dict as a JSON file
 * named after the certificate id and the clock.  `verify_certificate` loads
 * such a file and recomputes the signature.
 *
 * A dict is an entry list (`Json.Entries`); the file system is a map from
 * paths to the values stored there; the clock, `uuid4` and both hash
 * functions are parameters.
 */
module Certificate {
  import opened Common
  import opened Json

  /** `hashlib.sha256(text.encode()).hexdigest()`, supplied by the caller. */
  type TextSha256 = string -> Hex64

  /** `hashlib.sha512(text.encode()).hexdigest()`, supplied by the caller. */
  type TextSha512 = string -> Hex128

  /** `uuid.uuid4().hex`: 32 lower-case hexadecimal characters. */
  type Hex32 = s: string | |s| == 32 && forall i :: 0 <= i < |s| ==> IsLowerHex(s[i])
    witness seq(32, _ => '0')

  /** A reading of the local clock, as `strftime` formats it. */
  datatype Moment = Moment(year: nat, month: nat, day: nat, hour: nat, minute: nat, second: nat)

  /** The readings `strftime('%Y')` writes with four digits, and real dates and times. */
  predicate ValidMoment(m: Moment) {
    1000 <= m.year <= 9999 && 1 <= m.month <= 12 && 1 <= m.day <= 31 &&
    m.hour < 24 && m.minute < 60 && m.second < 60
  }

  type Clock = m: Moment | ValidMoment(m) witness Moment(2000, 1, 1, 0, 0, 0)

  // ----- dict operations -----

  /** `d.get(k)`: the value of the first entry with key `k`. */
  function Get(ms: Entries, k: string): Option<Value>
    decreases |ms|
  {
    if |ms| == 0 then None
    else if ms[0].0 == k then Some(ms[0].1)
    else Get(ms[1..], k)
  }

  /** `Get` finds a key exactly when it is one of the keys, and then an entry that is there. */
  lemma {:induction false} GetFinds(ms: Entries, k: string)
    ensures Get(ms, k).Some? <==> k in KeySet(ms)
    ensures Get(ms, k).Some? ==> (k, Get(ms, k).value) in ms
    decreases |ms|
  {
    if |ms| > 0 && ms[0].0 != k {
      GetFinds(ms[1..], k);
    }
  }

  /** `d.get(k, default)`. */
  function GetOr(ms: Entries, k: string, default: Value): Value {
    match Get(ms, k)
    case Some(v) => v
    case None => default
  }

  /** `d[k] = v`: an existing key keeps its place, a new one goes last. */
  function Set(ms: Entries, k: string, v: Value): Entries
    decreases |ms|
  {
    if |ms| == 0 then [(k, v)]
    else if ms[0].0 == k then [(k, v)] + ms[1..]
    else [ms[0]] + Set(ms[1..], k, v)
  }

  /** After `d[k] = v`, `k` maps to `v` and every other key to what it did before. */
  lemma {:induction false} SetGet(ms: Entries, k: string, v: Value, j: string)
    ensures Get(Set(ms, k, v), j) == if j == k then Some(v) else Get(ms, j)
    decreases |ms|
  {
    if |ms| > 0 && ms[0].0 != k {
      var r := Set(ms, k, v);
      assert r[0] == ms[0] && r[1..] == Set(ms[1..], k, v);
      SetGet(ms[1..], k, v, j);
    } else if |ms| > 0 {
      assert ([(k, v)] + ms[1..])[1..] == ms[1..];
    }
  }

  /** `d.pop(k, None)` on a copy: the dict without key `k`. */
  function Remove(ms: Entries, k: string): (r: Entries)
    ensures |r| <= |ms|
    decreases |ms|
  {
    if |ms| == 0 then []
    else if ms[0].0 == k then Remove(ms[1..], k)
    else [ms[0]] + Remove(ms[1..], k)
  }

  /** After the pop, `k` is missing and every other key maps to what it did before. */
  lemma {:induction false} RemoveGet(ms: Entries, k: string, j: string)
    ensures Get(Remove(ms, k), j) == if j == k then None else Get(ms, j)
    decreases |ms|
  {
    if |ms| > 0 {
      RemoveGet(ms[1..], k, j);
      if ms[0].0 != k {
        var r := Remove(ms, k);
        assert r[0] == ms[0] && r[1..] == Remove(ms[1..], k);
      }
    }
  }

  /** The entry at `i` is the first with its key, so `Get` finds it. */
  lemma {:induction false} GetAt(ms: Entries, i: nat, k: string)
    requires i < |ms| && ms[i].0 == k && forall j | 0 <= j < i :: ms[j].0 != k
    ensures Get(ms, k) == Some(ms[i].1)
    decreases i
  {
    if i > 0 {
      GetAt(ms[1..], i - 1, k);
    }
  }

  /** Setting the key of that entry replaces it where it stands. */
  lemma {:induction false} SetAt(ms: Entries, i: nat, k: string, v: Value)
    requires i < |ms| && ms[i].0 == k && forall j | 0 <= j < i :: ms[j].0 != k
    ensures Set(ms, k, v) == ms[i := (k, v)]
    decreases i
  {
    if i > 0 {
      SetAt(ms[1..], i - 1, k, v);
      assert ms[i := (k, v)] == [ms[0]] + ms[1..][i - 1 := (k, v)];
    } else {
      assert ms[i := (k, v)] == [(k, v)] + ms[1..];
    }
  }

  /**
   * `d.get(k, {}).get(k2)`: `Some(Null)` when `k` is missing, the inner
   * value (or `Null`) when `d[k]` is a dict, and `None` when `d[k]` is
   * anything else, on which `.get` raises.
   */
  function GetIn(ms: Entries, k: string, k2: string): (r: Option<Value>)
    ensures r.None? <==> Get(ms, k).Some? && !Get(ms, k).value.Object?
  {
    match Get(ms, k)
    case None => Some(Null)
    case Some(Object(inner)) => Some(GetOr(inner, k2, Null))
    case Some(_) => None
  }

  // ----- the verification record -----

  /**
   * The fields of the verification record before `hash`: its key, the key
   * of the wipe dict it is read from, and the default when that is missing.
   */
  const VERIFICATION_FIELDS: seq<(string, string, Value)> :=
    [("method", "wipe_method", Str("Unknown")),
     ("passes", "passes_completed", Int(0)),
     ("bytes_wiped", "bytes_wiped", Int(0)),
     ("start_time", "start_time", Str("")),
     ("end_time", "end_time", Str("")),
     ("duration_seconds", "duration", Int(0)),
     ("target_info", "target_info", Object([])),
     ("verification_status", "verification_status", Str("Not Verified"))]

  /** Each field read from the wipe dict with `wipe_data.get(source, default)`. */
  function Project(wipe: Entries, fields: seq<(string, string, Value)>): (r: Entries)
    ensures |r| == |fields| && forall j | 0 <= j < |r| :: r[j].0 == fields[j].0
  {
    if |fields| == 0 then []
    else [(fields[0].0, GetOr(wipe, fields[0].1, fields[0].2))] + Project(wipe, fields[1..])
  }

  /** The dict `_generate_verification_data` builds: the wipe's fields or their defaults, and `hash`. */
  function VerificationFields(wipe: Entries, hash: Value): Entries {
    Project(wipe, VERIFICATION_FIELDS) + [("hash", hash)]
  }

  /** The record as first built, its hash `None`. */
  function VerificationRecord(wipe: Entries): Entries {
    VerificationFields(wipe, Null)
  }

  /** The SHA-256 of the sorted text of the unhashed record. */
  function VerificationHash(wipe: Entries, sha256: TextSha256): Value {
    Str(sha256(Dumps(Object(VerificationRecord(wipe)))))
  }

  /** `_generate_verification_data`: the record with the SHA-256 of its sorted text as its hash. */
  function VerificationData(wipe: Entries, sha256: TextSha256): Entries {
    VerificationFields(wipe, VerificationHash(wipe, sha256))
  }

  /** Only the last field of the record is `hash`. */
  lemma HashLast(wipe: Entries, hash: Value)
    ensures var v := VerificationFields(wipe, hash);
      |v| == 9 && v[8] == ("hash", hash) && forall j | 0 <= j < 8 :: v[j].0 != "hash"
  {
    var v := VerificationFields(wipe, hash);
    forall j | 0 <= j < 8
      ensures v[j].0 != "hash"
    {
      assert v[j].0 == VERIFICATION_FIELDS[j].0;
      assert |VERIFICATION_FIELDS[j].0| != 4;
    }
  }

  /** Setting the hash replaces the last field where it stands. */
  lemma SetHash(wipe: Entries, a: Value, b: Value)
    ensures Set(VerificationFields(wipe, a), "hash", b) == VerificationFields(wipe, b)
    ensures Get(VerificationFields(wipe, a), "hash") == Some(a)
  {
    var v := VerificationFields(wipe, a);
    HashLast(wipe, a);
    SetAt(v, 8, "hash", b);
    GetAt(v, 8, "hash");
    assert v[8 := ("hash", b)] == VerificationFields(wipe, b);
  }

  /** The record is the one `verification["hash"] = ...` produces from the unhashed record. */
  lemma VerificationDataIsSet(wipe: Entries, sha256: TextSha256)
    ensures VerificationData(wipe, sha256) ==
      Set(VerificationRecord(wipe), "hash", Str(sha256(Dumps(Object(VerificationRecord(wipe))))))
  {
    SetHash(wipe, Null, VerificationHash(wipe, sha256));
  }

  /**
   * The stored hash checks out: blanking the hash of the record and
   * hashing its sorted text again gives the hash the record carries.
   */
  lemma VerificationHashRecomputes(wipe: Entries, sha256: TextSha256)
    ensures var v := VerificationData(wipe, sha256);
      Get(v, "hash") == Some(Str(sha256(Dumps(Object(Set(v, "hash", Null))))))
  {
    SetHash(wipe, Str(sha256(Dumps(Object(VerificationRecord(wipe))))), Null);
  }

  /** With an empty wipe dict every field takes its default, in the order the dict is built. */
  lemma VerificationDefaults()
    ensures var r := VerificationRecord([]);
      && |r| == 9
      && r[0] == ("method", Str("Unknown")) && r[1] == ("passes", Int(0)) && r[2] == ("bytes_wiped", Int(0))
      && r[3] == ("start_time", Str("")) && r[4] == ("end_time", Str("")) && r[5] == ("duration_seconds", Int(0))
      && r[6] == ("target_info", Object([])) && r[7] == ("verification_status", Str("Not Verified"))
      && r[8] == ("hash", Null)
  {
    ProjectNothing(VERIFICATION_FIELDS);
  }

  /** Projecting an empty dict gives every field its default. */
  lemma {:induction false} ProjectNothing(fields: seq<(string, string, Value)>)
    ensures forall j | 0 <= j < |fields| :: Project([], fields)[j] == (fields[j].0, fields[j].2)
    decreases |fields|
  {
    if |fields| > 0 {
      ProjectNothing(fields[1..]);
    }
  }

  // ----- names -----

  /** `strftime('%Y%m%d')`. */
  function DateStamp(m: Clock): (r: string)
    ensures |r| == 8 && forall i | 0 <= i < |r| :: IsDigit(r[i])
  {
    PadNatWidth(m.year, 4);
    PadNatWidth(m.month, 2);
    PadNatWidth(m.day, 2);
    PadNat(m.year, 4) + PadNat(m.month, 2) + PadNat(m.day, 2)
  }

  /** `strftime('%Y%m%d_%H%M%S')`. */
  function TimeStamp(m: Clock): (r: string)
    ensures |r| == 15 && r[8] == '_'
    ensures forall i | 0 <= i < |r| && i != 8 :: IsDigit(r[i])
  {
    PadNatWidth(m.hour, 2);
    PadNatWidth(m.minute, 2);
    PadNatWidth(m.second, 2);
    DateStamp(m) + "_" + PadNat(m.hour, 2) + PadNat(m.minute, 2) + PadNat(m.second, 2)
  }

  /** `_generate_cert_id`: "CS-", the date, "-", and the first eight hex digits of a UUID in upper case. */
  function CertId(m: Clock, uuid: Hex32): (r: string)
    ensures |r| == 20 && StartsWith(r, "CS-") && r[11] == '-'
    ensures forall i | 3 <= i < 11 :: IsDigit(r[i])
    ensures forall i | 12 <= i < 20 :: IsUpperHex(r[i]) && r[i] == UpperChar(uuid[i - 12])
  {
    var r := "CS-" + DateStamp(m) + "-" + Upper(uuid[..8]);
    assert r[..3] == "CS-";
    forall i | 12 <= i < 20
      ensures IsUpperHex(r[i]) && r[i] == UpperChar(uuid[i - 12])
    {
      assert r[i] == Upper(uuid[..8])[i - 12];
      assert IsLowerHex(uuid[i - 12]);
    }
    r
  }

  /** `cert_dir / f"cert_{id}_{stamp}{extension}"`. */
  function CertPath(id: string, m: Clock, extension: string): (r: string)
    ensures StartsWith(r, "certificates/cert_") && EndsWith(r, extension)
  {
    var r := "certificates/cert_" + id + "_" + TimeStamp(m) + extension;
    assert r[..18] == "certificates/cert_";
    assert r[|r| - |extension|..] == extension;
    r
  }

  // ----- signing -----

  /** The text the signature covers: the sorted dump of every field but the signature. */
  function SignedText(cert: Entries): string {
    Dumps(Object(Remove(cert, "digital_signature")))
  }

  /** `_generate_signature`. */
  function Signature(cert: Entries, sha512: TextSha512, signedAt: string): Value {
    Object([("algorithm", Str("SHA-512")),
            ("signature", Str(sha512(SignedText(cert)))),
            ("timestamp", Str(signedAt))])
  }

  const Organization: Entries :=
    [("name", Str("CleanSlate Data Sanitization")),
     ("department", Str("Professional Data Wiping Services")),
     ("address", Str("NIST SP 800-88 Rev. 1 Compliant"))]

  /** The dict `generate_certificate` builds, with `signature` in its last field. */
  function CertFields(id: string, created: string, wipe: Entries, verification: Entries, signature: Value): Entries {
    [("certificate_id", Str(id)),
     ("version", Str("1.0")),
     ("standard", Str("NIST SP 800-88 Rev. 1")),
     ("timestamp", Str(created)),
     ("organization", Object(Organization)),
     ("wipe_details", Object(wipe)),
     ("verification", Object(verification)),
     ("digital_signature", signature)]
  }

  /** `cert_data` before it is signed: its signature is still `None`. */
  function CertData(id: string, created: string, wipe: Entries, verification: Entries): Entries {
    CertFields(id, created, wipe, verification, Null)
  }

  /** `cert_data` once `_generate_signature` has signed it. */
  function SignedCert(id: string, created: string, wipe: Entries, verification: Entries,
                      sha512: TextSha512, signedAt: string): Entries {
    CertFields(id, created, wipe, verification,
               Signature(CertData(id, created, wipe, verification), sha512, signedAt))
  }

  /** What `Get` finds in the certificate dict. */
  lemma CertFieldsGet(id: string, created: string, wipe: Entries, verification: Entries, signature: Value)
    ensures var c := CertFields(id, created, wipe, verification, signature);
      Get(c, "digital_signature") == Some(signature) &&
      Get(c, "certificate_id") == Some(Str(id)) &&
      Get(c, "timestamp") == Some(Str(created)) &&
      Get(c, "verification") == Some(Object(verification))
  {
    var c := CertFields(id, created, wipe, verification, signature);
    GetAt(c, 7, "digital_signature");
    GetAt(c, 0, "certificate_id");
    GetAt(c, 3, "timestamp");
    assert c[4].0[0] == 'o' && c[5].0[0] == 'w';
    GetAt(c, 6, "verification");
  }

  /** Setting `digital_signature` replaces the last field where it stands. */
  lemma SetSignature(id: string, created: string, wipe: Entries, verification: Entries, a: Value, b: Value)
    ensures Set(CertFields(id, created, wipe, verification, a), "digital_signature", b) ==
      CertFields(id, created, wipe, verification, b)
  {
    var c := CertFields(id, created, wipe, verification, a);
    SetAt(c, 7, "digital_signature", b);
    assert c[7 := ("digital_signature", b)] == CertFields(id, created, wipe, verification, b);
  }

  /** Removing a key after setting it is removing it from the start. */
  lemma {:induction false} RemoveSet(ms: Entries, k: string, v: Value)
    ensures Remove(Set(ms, k, v), k) == Remove(ms, k)
    decreases |ms|
  {
    if |ms| == 0 {
      assert Remove([(k, v)], k) == Remove([], k);
    } else if ms[0].0 == k {
      assert ([(k, v)] + ms[1..])[1..] == ms[1..];
    } else {
      RemoveSet(ms[1..], k, v);
      var s := Set(ms, k, v);
      assert s[0] == ms[0] && s[1..] == Set(ms[1..], k, v);
    }
  }

  /** The signed text does not depend on what the `digital_signature` field holds. */
  lemma SignatureExcluded(cert: Entries, v: Value)
    ensures SignedText(Set(cert, "digital_signature", v)) == SignedText(cert)
  {
    RemoveSet(cert, "digital_signature", v);
  }

  /** The signed certificate is the one `cert_data["digital_signature"] = ...` produces. */
  lemma SignedIsSet(id: string, created: string, wipe: Entries, verification: Entries,
                    sha512: TextSha512, signedAt: string)
    ensures var data := CertData(id, created, wipe, verification);
      SignedCert(id, created, wipe, verification, sha512, signedAt) ==
        Set(data, "digital_signature", Signature(data, sha512, signedAt))
  {
    var data := CertData(id, created, wipe, verification);
    SetSignature(id, created, wipe, verification, Null, Signature(data, sha512, signedAt));
  }

  // ----- generating -----

  /** The clock readings and the UUID one run of `generate_certificate` takes. */
  datatype Readings = Readings(
    idDate: Clock, uuid: Hex32, created: string, signedAt: string, savedAt: Clock, otherAt: Clock)

  /** What `generate_certificate` returns and the files afterwards. */
  datatype Generated = Generated(result: Entries, files: map<string, Value>)

  /**
   * `generate_certificate`: the signed certificate is stored as JSON under
   * its path; the returned dict names it, the PDF (or, without ReportLab,
   * the text) certificate beside it, and the verification hash.
   */
  function GenerateCertificate(files: map<string, Value>, wipe: Entries, t: Readings, hasReportlab: bool,
                               sha256: TextSha256, sha512: TextSha512): Generated
  {
    var id := CertId(t.idDate, t.uuid);
    var cert := SignedCert(id, t.created, wipe, VerificationData(wipe, sha256), sha512, t.signedAt);
    var path := CertPath(id, t.savedAt, ".json");
    var other := CertPath(id, t.otherAt, if hasReportlab then ".pdf" else ".txt");
    var result :=
      [("certificate_id", Str(id)),
       ("json_path", Str(path)),
       ("pdf_path", Str(other)),
       ("timestamp", Str(t.created)),
       ("verification_hash", VerificationHash(wipe, sha256))];
    Generated(result, files[path := Object(cert)])
  }

  /**
   * Generating adds exactly one JSON file (rendering is not modelled), the certificate, under
   * "certificates/" with a ".json" name, leaves every other file as it was,
   * and returns that path as `json_path`.
   */
  lemma GeneratedFiles(files: map<string, Value>, wipe: Entries, t: Readings, hasReportlab: bool,
                       sha256: TextSha256, sha512: TextSha512)
    ensures var g := GenerateCertificate(files, wipe, t, hasReportlab, sha256, sha512);
      var path := CertPath(CertId(t.idDate, t.uuid), t.savedAt, ".json");
      StartsWith(path, "certificates/cert_") && EndsWith(path, ".json") &&
      g.files.Keys == files.Keys + {path} &&
      (forall p | p in files && p != path :: g.files[p] == files[p]) &&
      |g.result| == 5 && g.result[1] == ("json_path", Str(path))
  {
  }

  // ----- verifying -----

  datatype Failure = NotJson | Raised

  /** The dict `verify_certificate` returns. */
  datatype Verdict =
    | Checked(valid: bool, certificateId: Value, timestamp: Value, verificationHash: Value, message: string)
    | Failed(error: Failure)

  const VALID_MESSAGE := "Certificate is valid and authentic"
  const INVALID_MESSAGE := "Certificate signature verification failed"

  /**
   * `verify_certificate(path)`, where `loaded` is what `json.load` gave
   * (`None` when opening or parsing raised).  Only a ".json" path is read;
   * a top level that is not a dict, or a `digital_signature` or
   * `verification` field that is present but not a dict, raises.
   */
  function VerifyCertificate(path: string, loaded: Option<Value>, sha512: TextSha512): (r: Verdict)
    ensures !EndsWith(path, ".json") ==> r == Failed(NotJson)
    ensures r.Checked? <==> (EndsWith(path, ".json") && loaded.Some? && loaded.value.Object? &&
      GetIn(loaded.value.members, "digital_signature", "signature").Some? &&
      GetIn(loaded.value.members, "verification", "hash").Some?)
    ensures r.Checked? ==> (r.message == VALID_MESSAGE <==> r.valid)
    ensures r.Checked? && r.valid ==>
      GetIn(loaded.value.members, "digital_signature", "signature") ==
        Some(Str(sha512(SignedText(loaded.value.members))))
  {
    if !EndsWith(path, ".json") then Failed(NotJson)
    else
      match loaded
      case None => Failed(Raised)
      case Some(Object(cert)) => CheckFields(cert, sha512)
      case Some(_) => Failed(Raised)
  }

  /** The checks `verify_certificate` makes on a loaded dict. */
  function CheckFields(cert: Entries, sha512: TextSha512): Verdict {
    match (GetIn(cert, "digital_signature", "signature"), GetIn(cert, "verification", "hash"))
    case (Some(stored), Some(hash)) =>
      var valid := stored == Str(sha512(SignedText(cert)));
      Checked(valid, GetOr(cert, "certificate_id", Null), GetOr(cert, "timestamp", Null), hash,
              if valid then VALID_MESSAGE else INVALID_MESSAGE)
    case _ => Failed(Raised)
  }

  /** The verification record carries a hash. */
  lemma VerificationHashed(wipe: Entries, sha256: TextSha256)
    ensures var v := VerificationData(wipe, sha256);
      Get(v, "hash") == Some(Str(sha256(Dumps(Object(VerificationRecord(wipe))))))
  {
    SetHash(wipe, Str(sha256(Dumps(Object(VerificationRecord(wipe))))), Null);
  }

  /** A certificate whose fields are as `generate_certificate` left them is valid. */
  lemma ValidWhenSigned(path: string, cert: Entries, sig: Entries, verification: Entries,
                        id: Value, created: Value, hash: Value, sha512: TextSha512)
    requires EndsWith(path, ".json")
    requires Get(cert, "digital_signature") == Some(Object(sig))
    requires Get(sig, "signature") == Some(Str(sha512(SignedText(cert))))
    requires Get(cert, "verification") == Some(Object(verification)) && Get(verification, "hash") == Some(hash)
    requires Get(cert, "certificate_id") == Some(id) && Get(cert, "timestamp") == Some(created)
    ensures VerifyCertificate(path, Some(Object(cert)), sha512) == Checked(true, id, created, hash, VALID_MESSAGE)
  {
  }

  /** The signature entry holds the SHA-512 of the signed text under "signature". */
  lemma SignatureGet(cert: Entries, sha512: TextSha512, signedAt: string)
    ensures var sig := Signature(cert, sha512, signedAt);
      sig.Object? && Get(sig.members, "signature") == Some(Str(sha512(SignedText(cert))))
  {
    GetAt(Signature(cert, sha512, signedAt).members, 1, "signature");
  }

  /** A signed certificate read back from a ".json" path is valid. */
  lemma SignedVerifies(path: string, id: string, created: string, wipe: Entries, verification: Entries,
                       hash: Value, sha512: TextSha512, signedAt: string)
    requires EndsWith(path, ".json") && Get(verification, "hash") == Some(hash)
    ensures var cert := SignedCert(id, created, wipe, verification, sha512, signedAt);
      VerifyCertificate(path, Some(Object(cert)), sha512) == Checked(true, Str(id), Str(created), hash, VALID_MESSAGE)
  {
    var data := CertData(id, created, wipe, verification);
    var sig := Signature(data, sha512, signedAt);
    var cert := SignedCert(id, created, wipe, verification, sha512, signedAt);
    SignedIsSet(id, created, wipe, verification, sha512, signedAt);
    SignatureExcluded(data, sig);
    CertFieldsGet(id, created, wipe, verification, sig);
    SignatureGet(data, sha512, signedAt);
    ValidWhenSigned(path, cert, sig.members, verification, Str(id), Str(created), hash, sha512);
  }

  /**
   * A certificate just generated verifies: read back from its path it is
   * valid and reports its id, its creation time and the verification hash
   * `generate_certificate` returned.
   */
  lemma GeneratedVerifies(files: map<string, Value>, wipe: Entries, t: Readings, hasReportlab: bool,
                          sha256: TextSha256, sha512: TextSha512)
    ensures var g := GenerateCertificate(files, wipe, t, hasReportlab, sha256, sha512);
      var path := g.result[1].1.s;
      path in g.files &&
      VerifyCertificate(path, Some(g.files[path]), sha512) ==
        Checked(true, Str(CertId(t.idDate, t.uuid)), Str(t.created), g.result[4].1, VALID_MESSAGE)
  {
    var id := CertId(t.idDate, t.uuid);
    VerificationHashed(wipe, sha256);
    SignedVerifies(CertPath(id, t.savedAt, ".json"), id, t.created, wipe, VerificationData(wipe, sha256),
                   VerificationHash(wipe, sha256), sha512, t.signedAt);
  }

  /** A path without the ".json" suffix is refused before anything is read. */
  lemma OnlyJsonVerified(path: string, loaded: Option<Value>, sha512: TextSha512)
    requires !EndsWith(path, ".json")
    ensures VerifyCertificate(path, loaded, sha512) == Failed(NotJson)
  {
  }

  /** `s` and `t` do not collide under `h` (when they differ, their digests differ). */
  predicate NoCollision(h: TextSha512, s: string, t: string) {
    s != t ==> h(s) != h(t)
  }

  /**
   * Tampering is detected: a certificate that carries the signature of a
   * valid one but differs from it, in anything but the order of dict
   * entries, outside its `digital_signature` field, is not valid, unless
   * SHA-512 collides on the two signed texts.
   */
  lemma TamperDetected(path: string, original: Entries, forged: Entries, sha512: TextSha512)
    requires VerifyCertificate(path, Some(Object(original)), sha512).Checked?
    requires VerifyCertificate(path, Some(Object(original)), sha512).valid
    requires Get(forged, "digital_signature") == Get(original, "digital_signature")
    requires Canon(Object(Remove(forged, "digital_signature"))) != Canon(Object(Remove(original, "digital_signature")))
    requires NoCollision(sha512, SignedText(forged), SignedText(original))
    ensures var r := VerifyCertificate(path, Some(Object(forged)), sha512);
      r.Failed? || !r.valid
  {
    DumpsInjective(Object(Remove(forged, "digital_signature")), Object(Remove(original, "digital_signature")));
  }

  /** A certificate without a `digital_signature` field is reported invalid, not refused. */
  lemma UnsignedInvalid(path: string, cert: Entries, sha512: TextSha512)
    requires EndsWith(path, ".json") && Get(cert, "digital_signature") == None
    requires GetIn(cert, "verification", "hash").Some?
    ensures VerifyCertificate(path, Some(Object(cert)), sha512) ==
      Checked(false, GetOr(cert, "certificate_id", Null), GetOr(cert, "timestamp", Null),
              GetIn(cert, "verification", "hash").value, INVALID_MESSAGE)
  {
  }

  // ----- the order of a certificate's fields -----

  /** In a dict with distinct keys, `Get` finds every entry. */
  lemma {:induction false} GetDistinct(s: Entries, k: string, v: Value)
    requires DistinctKeys(s) && (k, v) in s
    ensures Get(s, k) == Some(v)
    decreases |s|
  {
    if s[0] != (k, v) {
      var j :| 0 <= j < |s| && s[j] == (k, v);
      assert s[1..][j - 1] == (k, v);
      if s[0].0 == k {
        InKeySet(s[1..], j - 1);
      }
      GetDistinct(s[1..], k, v);
    }
  }

  /** An entry of a dict has its key among the keys. */
  lemma EntryKey(s: Entries, k: string, v: Value)
    requires (k, v) in s
    ensures k in KeySet(s)
  {
    var j :| 0 <= j < |s| && s[j] == (k, v);
    InKeySet(s, j);
  }

  /** `Get` gives the same on a reordering of a dict with distinct keys. */
  lemma GetPermutation(a: Entries, b: Entries, k: string)
    requires DistinctKeys(b) && multiset(a) == multiset(b)
    ensures Get(a, k) == Get(b, k)
  {
    GetFinds(a, k);
    GetFinds(b, k);
    if Get(a, k).Some? {
      var v := Get(a, k).value;
      assert (k, v) in multiset(b);
      GetDistinct(b, k, v);
    } else if Get(b, k).Some? {
      var v := Get(b, k).value;
      assert (k, v) in multiset(a);
      EntryKey(a, k, v);
    }
  }

  /** How many times each entry occurs once `k` is popped. */
  lemma {:induction false} RemoveCounts(s: Entries, k: string, x: (string, Value))
    ensures multiset(Remove(s, k))[x] == if x.0 == k then 0 else multiset(s)[x]
    decreases |s|
  {
    if |s| > 0 {
      RemoveCounts(s[1..], k, x);
      assert s == [s[0]] + s[1..];
      if s[0].0 != k {
        assert Remove(s, k) == [s[0]] + Remove(s[1..], k);
      }
    }
  }

  /** Popping a key from a dict with distinct keys leaves them distinct. */
  lemma {:induction false} RemoveDistinct(s: Entries, k: string)
    requires DistinctKeys(s)
    ensures DistinctKeys(Remove(s, k)) && KeySet(Remove(s, k)) <= KeySet(s)
    decreases |s|
  {
    if |s| > 0 {
      RemoveDistinct(s[1..], k);
      if s[0].0 != k {
        var r := Remove(s, k);
        assert r[0] == s[0] && r[1..] == Remove(s[1..], k);
      }
    }
  }

  /** The verdict depends on the four fields it reads and on the signed text only. */
  lemma VerdictDependsOn(a: Entries, b: Entries, sha512: TextSha512)
    requires Get(a, "digital_signature") == Get(b, "digital_signature")
    requires Get(a, "verification") == Get(b, "verification")
    requires Get(a, "certificate_id") == Get(b, "certificate_id")
    requires Get(a, "timestamp") == Get(b, "timestamp")
    requires SignedText(a) == SignedText(b)
    ensures CheckFields(a, sha512) == CheckFields(b, sha512)
  {
    assert GetIn(a, "digital_signature", "signature") == GetIn(b, "digital_signature", "signature");
    assert GetIn(a, "verification", "hash") == GetIn(b, "verification", "hash");
    assert GetOr(a, "certificate_id", Null) == GetOr(b, "certificate_id", Null);
    assert GetOr(a, "timestamp", Null) == GetOr(b, "timestamp", Null);
  }

  /**
   * Only the `signature` inside `digital_signature` takes part in the
   * check: editing the rest of that entry (its `algorithm`, its
   * `timestamp`) leaves the verdict as it was.
   */
  lemma MetadataIrrelevant(path: string, cert: Entries, sig: Entries, sig2: Entries, sha512: TextSha512)
    requires Get(cert, "digital_signature") == Some(Object(sig))
    requires Get(sig2, "signature") == Get(sig, "signature")
    ensures VerifyCertificate(path, Some(Object(Set(cert, "digital_signature", Object(sig2)))), sha512) ==
            VerifyCertificate(path, Some(Object(cert)), sha512)
  {
    SignatureExcluded(cert, Object(sig2));
    SetGet(cert, "digital_signature", Object(sig2), "digital_signature");
    SetGet(cert, "digital_signature", Object(sig2), "verification");
    SetGet(cert, "digital_signature", Object(sig2), "certificate_id");
    SetGet(cert, "digital_signature", Object(sig2), "timestamp");
  }

  /** The signed text of a dict with distinct keys does not depend on their order. */
  lemma SignedTextPermutation(a: Entries, b: Entries)
    requires DistinctKeys(b) && multiset(a) == multiset(b)
    ensures SignedText(a) == SignedText(b)
  {
    var ra, rb := Remove(a, "digital_signature"), Remove(b, "digital_signature");
    forall x
      ensures multiset(ra)[x] == multiset(rb)[x]
    {
      RemoveCounts(a, "digital_signature", x);
      RemoveCounts(b, "digital_signature", x);
    }
    assert multiset(ra) == multiset(rb);
    RemoveDistinct(b, "digital_signature");
    KeyOrderIrrelevant(ra, rb);
  }

  /**
   * The verdict does not depend on the order of a certificate's fields:
   * the signature covers the sorted text, so a certificate whose fields
   * were reordered, with nothing else changed, verifies exactly as before.
   */
  lemma ReorderedVerifies(path: string, a: Entries, b: Entries, sha512: TextSha512)
    requires DistinctKeys(b) && multiset(a) == multiset(b)
    ensures VerifyCertificate(path, Some(Object(a)), sha512) == VerifyCertificate(path, Some(Object(b)), sha512)
  {
    GetPermutation(a, b, "digital_signature");
    GetPermutation(a, b, "verification");
    GetPermutation(a, b, "certificate_id");
    GetPermutation(a, b, "timestamp");
    SignedTextPermutation(a, b);
    VerdictDependsOn(a, b, sha512);
  }
}
