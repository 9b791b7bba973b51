/** One row of the `news_articles_four` table as the page receives it, and
    the two display languages. */
module Articles {
  import opened Wrappers
  import opened Text

  /** The display language; every value other than "english" selects the
      Malayalam fields. */
  datatype Lang = English | Malayalam

  /** A fetched row. Every column except `id` may be NULL. `imageData` is the
      base64 text of the picture. */
  datatype Article = Article(
    id: int,
    cleanedTitle: Option<String>,
    malayalamTitle: Option<String>,
    date: Option<String>,
    tag: Option<String>,
    imageData: Option<String>,
    cleanedDescription: Option<String>,
    malayalamDescription: Option<String>)
  {
    /** The title shown and searched in `lang`. */
    function Title(lang: Lang): Option<String> {
      match lang
      case English => cleanedTitle
      case Malayalam => malayalamTitle
    }

    /** The description shown and searched in `lang`. */
    function Description(lang: Lang): Option<String> {
      match lang
      case English => cleanedDescription
      case Malayalam => malayalamDescription
    }
  }

  /** The column names of the fetched rows, as the SELECT lists them. */
  const Columns: set<String> := {"id", "cleaned_title", "malayalam_title", "date", "tag",
                                 "image_data", "cleaned_description", "malayalam_description"}

  function TitleColumn(lang: Lang): String {
    if lang == English then "cleaned_title" else "malayalam_title"
  }

  function DescriptionColumn(lang: Lang): String {
    if lang == English then "cleaned_description" else "malayalam_description"
  }
}
