/**
 * What the engine takes from its surroundings: the working directory, Node's path functions, and
 * the string libraries it calls but does not define (case-anything's `kebabCase`, the `title`
 * package, github-slugger) and `getSourcePath`. They are parameters of the model, so every property
 * proved below holds whatever these functions do, unless a lemma states an assumption about one.
 */
module Environment {

  datatype Host = Host(
    /** `process.cwd()` */
    cwd: string,
    /** `path.resolve(from, to)` */
    resolve: (string, string) -> string,
    /** `path.join(a, b)` */
    join: (string, string) -> string,
    /** `kebabCase` of case-anything */
    kebabCase: string -> string,
    /** the default export of the `title` package */
    parseTitle: string -> string,
    /** github-slugger's `slug` of one name, on a freshly reset slugger */
    slug: string -> string,
    /** `getSourcePath(path)` */
    sourcePath: string -> string,
    /** `getSourcePath(path, line, column)` */
    sourcePathAt: (string, nat, nat) -> string
  )
}
