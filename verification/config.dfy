/** The scanner's configuration and result record (gscan.go, scan.go).
    Durations are whole nanoseconds, as Go's `time.Duration`. */
module Config {

  /** `ScanRecord`: an address and the round-trip times gathered for it. */
  datatype ScanRecord = ScanRecord(ip: string, pingRtt: int, rtt: int)

  /** `PingConfig`: bounds on the ICMP round trip. */
  datatype PingConfig = PingConfig(scanMinPingRtt: int, scanMaxPingRtt: int)

  /** `ScanConfig`: the settings of one probe kind. */
  datatype ScanConfig = ScanConfig(
    serverName: seq<string>,
    httpVerifyHosts: seq<string>,
    handshakeTimeout: int,
    scanMinRtt: int,
    scanMaxRtt: int,
    recordLimit: int,
    inputFile: string,
    outputFile: string,
    outputSeparator: string,
    level: int)

  /** `GScanConfig`: the whole configuration file. */
  datatype GScanConfig = GScanConfig(
    scanWorker: int,
    verifyPing: bool,
    scanCountPerIp: int,
    backupDir: string,
    operation: string,
    ping: PingConfig,
    quic: ScanConfig,
    tls: ScanConfig,
    sni: ScanConfig)

  /** `new(ScanRecord)` with its address set. */
  function NewRecord(ip: string): ScanRecord
  {
    ScanRecord(ip, 0, 0)
  }
}
