/** The kernel's filter of process exits. */
module ExitFilter {
  import opened Decimal
  import opened KernelConfig

  datatype ExitEvent = ExitEvent(generation: nat, exitCode: int, signal: int)

  /** The event a task's exit status calls for: `exit_code << 8 | signal`, abnormal
      exits only, none whose code is among the first `ignore_exit_count` listed. */
  function ExitVerdict(config: TapioConfig, status: nat): Option<ExitEvent>
    requires |config.ignoreExitCodes| == CONFIG_MAX_IGNORE_EXIT_CODES
  {
    var code, signal := status / 256, status % 128;
    if !Enabled(config, F_CONTAINER) then None
    else if code == 0 && signal == 0 then None
    else if code in config.ignoreExitCodes[..ClampIgnoreExitCount(config.ignoreExitCount)] then None
    else Some(ExitEvent(config.generation, code, signal))
  }

  class ExitHandler {
    var lostEvents: nat
    var events: seq<ExitEvent>

    /** `status` is none when the task or its status cannot be read. */
    method HandleExit(config: TapioConfig, status: Option<nat>, slot: bool)
      requires |config.ignoreExitCodes| == CONFIG_MAX_IGNORE_EXIT_CODES
      modifies this
      ensures var verdict := if status.Some? then ExitVerdict(config, status.value) else None;
              && events == old(events) + (if verdict.Some? && slot then [verdict.value] else [])
              && lostEvents == old(lostEvents) + (if verdict.Some? && !slot then 1 else 0)
    {
      if !Enabled(config, F_CONTAINER) || status == None {
        return;
      }
      var code, signal := status.value / 256, status.value % 128;
      if code == 0 && signal == 0 {
        return;
      }
      var ignoreCount := ClampIgnoreExitCount(config.ignoreExitCount);
      for i := 0 to CONFIG_MAX_IGNORE_EXIT_CODES
        invariant code !in config.ignoreExitCodes[..if i < ignoreCount then i else ignoreCount]
      {
        if i >= ignoreCount {
          break;
        }
        if config.ignoreExitCodes[i] == code {
          assert config.ignoreExitCodes[..ignoreCount][i] == code;
          return;
        }
        assert config.ignoreExitCodes[..i + 1] == config.ignoreExitCodes[..i] + [config.ignoreExitCodes[i]];
      }
      if !slot {
        lostEvents := lostEvents + 1;
        return;
      }
      events := events + [ExitEvent(config.generation, code, signal)];
    }
  }
}
