/** The output sink the renderers write into. */
module Formatter {
  import opened Hir

  /** The caller-owned formatter: the text written so far, the external
      leaf formatters, and the compact-preview mode flag. */
  class HirFormatter {
    var buf: string
    const r: Renderer
    const omitVerboseTypes: bool

    constructor (r: Renderer, omitVerboseTypes: bool)
      ensures buf == [] && this.r == r && this.omitVerboseTypes == omitVerboseTypes
    {
      buf := [];
      this.r := r;
      this.omitVerboseTypes := omitVerboseTypes;
    }

    /** Appends `s` to the output. */
    method WriteStr(s: string)
      modifies this
      ensures buf == old(buf) + s
    {
      buf := buf + s;
    }
  }
}
