/** The messages the background script and the page script exchange, by `action`. */
module Messages {

  datatype PageMessage =
    | GetPageContent
    | PageContent(content: string)
    | TranslationStart(isFullPage: bool)
    | ShowTranslation(translation: string, isFullPage: bool)
    | ShowError(error: string, isFullPage: bool)

  /** The messages that end a translation on the page. */
  predicate IsTerminal(m: PageMessage) {
    m.ShowTranslation? || m.ShowError?
  }
}
