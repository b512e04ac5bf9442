/** The runtime config the agent writes into each eBPF map, and the gate every
    handler puts in front of its work. */
module KernelConfig {

  const ABI_VERSION: nat := 2
  const F_NETWORK: bv64 := 1
  const F_STORAGE: bv64 := 2
  const F_CONTAINER: bv64 := 4
  const F_NODE_PMC: bv64 := 8
  const CONFIG_MAX_IGNORE_EXIT_CODES: nat := 16

  datatype TapioConfig = TapioConfig(
    abiVersion: nat,
    generation: nat,
    flags: bv64,
    slowIoThresholdNs: nat,
    ioLatencyCriticalNs: nat,
    connRefusedWindowNs: nat,
    connRefusedMinCount: nat,
    rttSpikeMultiplier: nat,
    rttSpikeAbsUs: nat,
    rttMinBaselineSamples: nat,
    ignoreExitCount: nat,
    ignoreExitCodes: seq<int>)

  /** A snapshot is usable only under the handler's own ABI version, and an
      observer acts only when its bit is set. */
  predicate Enabled(config: TapioConfig, flag: bv64) {
    config.abiVersion == ABI_VERSION && config.flags & flag != 0
  }

  function ClampIgnoreExitCount(count: nat): (n: nat)
    ensures n <= count && n <= CONFIG_MAX_IGNORE_EXIT_CODES
    ensures n == count || n == CONFIG_MAX_IGNORE_EXIT_CODES
  {
    if count > CONFIG_MAX_IGNORE_EXIT_CODES then CONFIG_MAX_IGNORE_EXIT_CODES else count
  }
}
