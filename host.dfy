/** What the block renderers call but this model does not define: the
    Markdown compiler of the parent parser, reached through
    `MarkdownPlus::compile` and `MarkdownPlus::compileParagraph`. */
module Host {

  /** `compile($str, $omitPWrapperTag)` and
      `compileParagraph($str, $omitPWrapperTag)` as given functions. */
  datatype Engine = Engine(compile: (string, bool) -> string, paragraph: (string, bool) -> string)
}
