/** The ways the modelled operations fail: each constructor stands for an
    exception the program throws (or, for `MissingFile`, the `TypeError` of
    reading a property of `undefined`). */
module Errors {
  datatype Error =
    | ReadFailed(path: string)
      // `Deno.readTextFileSync` or `Deno.readFile` could not read `path`
    | MissingFile(note: string, ext: string)
      // the note has no file with extension `ext`, so `files[ext]` is undefined
    | UnknownRefs(note: string, refs: set<string>)
      // the cross references of `note` that name no note
    | NoUrl(path: string)
      // the url file at `path` holds no `http:` or `https:` text
    | RepeatedName(name: string, path: string)
      // the assertion of the first revision: `path` puts `name` in a second directory
    | MissingOptions
      // `options.root` read from an absent `options` argument
    | NoFreePort
      // no port in [3000, 4000) could be bound
}
