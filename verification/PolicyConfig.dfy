/** The settings the recorder's policy reads. */
module PolicyConfig {
  import opened Bytes

  datatype TlsOptions = TlsOptions(enabled: bool, ports: seq<u16>, keepRecordBytes: u32, keepContinuationBytes: u32)

  datatype QuicOptions = QuicOptions(
    enabled: bool,
    ports: seq<u16>,
    keepShortHeaderBytes: u32,
    requireDcidMatch: bool,
    allowUnknownDcid: bool)

  datatype CaptureOptions = CaptureOptions(defaultSnaplen: u32, maxCaptureLen: u32)

  datatype Config = Config(minSavedBytes: u32, capture: CaptureOptions, tls: TlsOptions, quic: QuicOptions)

  predicate PortConfigured(ports: seq<u16>, port: u16) {
    port in ports
  }
}
