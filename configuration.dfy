/** The settings of certbot's NamespaceConfig that the hook layer reads. */
module Configuration {

  /** The empty string stands for an unset hook: the Python code tests every
   *  hook with `if cmd:`, for which None and "" are alike. */
  datatype Config = Config(
    verb: string,
    directoryHooks: bool,
    dryRun: bool,
    preHook: string,
    postHook: string,
    deployHook: string,
    renewHook: string,
    renewalPreHooksDir: string,
    renewalPostHooksDir: string,
    renewalDeployHooksDir: string)
}
