/** The record type the validator produces. */
module TrustStore {
  import opened CertificatesRepository

  /** A root certificate as listed in a trust store: its subject name and its
      fingerprint. Equality is structural, so two records with the same name
      and fingerprint are the same element of a set. */
  datatype RootCertificateRecord = RootCertificateRecord(subjectName: string, fingerprint: Fingerprint)

  /** A record built directly from a scraped subject name and fingerprint. */
  function FromScrapedRecord(subjectName: string, fingerprint: Fingerprint): RootCertificateRecord
  {
    RootCertificateRecord(subjectName, fingerprint)
  }
}
