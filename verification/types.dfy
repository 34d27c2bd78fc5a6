/**
 * The two record shapes the resolver hands out (src/types.ts).
 */
module Types {
  import opened Text

  /** What `extractPackInfo` finds in `.../packs/<packName>/<relativePath>`. */
  datatype PackInfo = PackInfo(packName: string, relativePath: string)

  /**
   * What `togglePath` reports: the path to switch to, how the current path
   * was classified, and the pack name when one was found (`packName?`).
   */
  datatype PathResolutionResult = PathResolutionResult(
    targetPath: string,
    isSpec: bool,
    isPack: bool,
    packName: Option<string>)
}
