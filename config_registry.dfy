/** The process-wide configuration slot: empty until `set_config` stores a
    `Config`, after which `get_config` hands out that same object. The
    module-global variable is the field of a registry object. */
module ConfigRegistry {
  import opened Wrappers
  import opened Configuration

  /** The error `get_config` raises on an empty slot. */
  const NotSetMessage: string := "Config has not been set."

  class Registry {
    /** `_config`: `None` until a configuration is stored. */
    var config: Option<Config>

    /** The module starts with an empty slot. */
    constructor()
      ensures config.None?
    {
      config := None;
    }

    /** `set_config`: store the object, replacing any earlier one. */
    method SetConfig(c: Config)
      modifies this
      ensures config == Some(c)
    {
      config := Some(c);
    }

    /** `get_config`: the stored object itself, or a `RuntimeError` when
        nothing was stored; the slot is left as it was. */
    method GetConfig() returns (r: Result<Config, string>)
      ensures config.None? <==> r.Failure?
      ensures r.Failure? ==> r.error == NotSetMessage
      ensures r.Success? ==> config == Some(r.value)
    {
      if config.None? {
        return Failure(NotSetMessage);
      }
      return Success(config.value);
    }
  }

  /** The life of the slot: reading before any store fails, a store is
      read back as the same object, a later store replaces it, and reading
      changes nothing. */
  method RegistryLifecycle(first: Config, second: Config)
    returns (before: Result<Config, string>, afterFirst: Result<Config, string>,
             afterSecond: Result<Config, string>, again: Result<Config, string>)
    ensures before == Failure(NotSetMessage)
    ensures afterFirst == Success(first)
    ensures afterSecond == Success(second)
    ensures again == afterSecond
  {
    var registry := new Registry();
    before := registry.GetConfig();
    registry.SetConfig(first);
    afterFirst := registry.GetConfig();
    registry.SetConfig(second);
    afterSecond := registry.GetConfig();
    again := registry.GetConfig();
  }
}
