/** The note /signup seeds for every new user: the title "Demo" and a Markdown sample
    (a template literal of 87 lines, non-ASCII letters written as escapes). The text is
    given in blocks of ten lines so that its length can be computed. */
module DemoNote {
  import opened NoteSchema
  import opened Outcomes

  const DemoTitle: string := "Demo"

  const DemoBlock1: string :=
    "\n"
    + "  # \U{042D}\U{0442}\U{043E} H1\n"
    + "\n"
    + "  ## \U{042D}\U{0442}\U{043E} H2 ##\n"
    + "  \n"
    + "  ### \U{042D}\U{0442}\U{043E} H3\n"
    + "  \n"
    + "  #### \U{042D}\U{0442}\U{043E} H4 ####\n"
    + "  \n"
    + "  ##### \U{042D}\U{0442}\U{043E} H5 #####\n"

  const DemoBlock2: string :=
    "  \n"
    + "  ###### \U{042D}\U{0442}\U{043E} H6\n"
    + "  \n"
    + "  * __\U{0422}\U{0435}\U{0437}\U{0438}\U{0441} \U{2116}1__\n"
    + "\n"
    + "  \U{0420}\U{0430}\U{0441}\U{043A}\U{0440}\U{044B}\U{0432}\U{0430}\U{0435}\U{043C} \U{0442}\U{0435}\U{0437}\U{0438}\U{0441}.\n"
    + "\n"
    + "  * __\U{0422}\U{0435}\U{0437}\U{0438}\U{0441} \U{2116}2__\n"
    + "\n"
    + "    \U{0420}\U{0430}\U{0441}\U{043A}\U{0440}\U{044B}\U{0432}\U{0430}\U{0435}\U{043C} \U{0442}\U{0435}\U{0437}\U{0438}\U{0441}.\n"

  const DemoBlock3: string :=
    "\n"
    + "  ---\n"
    + "\n"
    + "  * __\U{0422}\U{0435}\U{0437}\U{0438}\U{0441} \U{2116}1__ \U{0420}\U{0430}\U{0441}\U{043A}\U{0440}\U{044B}\U{0432}\U{0430}\U{0435}\U{043C} \U{0442}\U{0435}\U{0437}\U{0438}\U{0441}.\n"
    + "\n"
    + "  * __\U{0422}\U{0435}\U{0437}\U{0438}\U{0441} \U{2116}2__ \U{0420}\U{0430}\U{0441}\U{043A}\U{0440}\U{044B}\U{0432}\U{0430}\U{0435}\U{043C} \U{0442}\U{0435}\U{0437}\U{0438}\U{0441}.\n"
    + "\n"
    + "  __\U{0416}\U{0438}\U{0440}\U{043D}\U{044B}\U{0439}__\n"
    + "\n"
    + "  **\U{0422}\U{043E}\U{0436}\U{0435} \U{0436}\U{0438}\U{0440}\U{043D}\U{044B}\U{0439}**\n"

  const DemoBlock4: string :=
    "\n"
    + "  *\U{041A}\U{0443}\U{0440}\U{0441}\U{0438}\U{0432}*\n"
    + "\n"
    + "  _\U{0422}\U{043E}\U{0436}\U{0435} \U{043A}\U{0443}\U{0440}\U{0441}\U{0438}\U{0432}_\n"
    + "\n"
    + "  ~~\U{0417}\U{0430}\U{0447}\U{0435}\U{0440}\U{043A}\U{043D}\U{0443}\U{0442}\U{044B}\U{0439}~~\n"
    + "\n"
    + "  - \U{041F}\U{0443}\U{043D}\U{043A}\U{0442} 1\n"
    + "\n"
    + "  - \U{041F}\U{0443}\U{043D}\U{043A}\U{0442} 2\n"

  const DemoBlock5: string :=
    "\n"
    + "  - \U{041F}\U{0443}\U{043D}\U{043A}\U{0442} 3\n"
    + "\n"
    + "  \U{0438}\U{043B}\U{0438}\n"
    + "\n"
    + "  + \U{041F}\U{0443}\U{043D}\U{043A}\U{0442} 1\n"
    + "\n"
    + "  + \U{041F}\U{0443}\U{043D}\U{043A}\U{0442} 2\n"
    + "\n"
    + "  + \U{041F}\U{0443}\U{043D}\U{043A}\U{0442} 3\n"

  const DemoBlock6: string :=
    "\n"
    + "  \U{0438}\U{043B}\U{0438}\n"
    + "\n"
    + "  * \U{041F}\U{0443}\U{043D}\U{043A}\U{0442} 1\n"
    + "\n"
    + "  * \U{041F}\U{0443}\U{043D}\U{043A}\U{0442} 2\n"
    + "\n"
    + "  * \U{041F}\U{0443}\U{043D}\U{043A}\U{0442} 3\n"
    + "\n"
    + "  - \U{041F}\U{0443}\U{043D}\U{043A}\U{0442} 1\n"

  const DemoBlock7: string :=
    "\n"
    + "          - \U{041F}\U{043E}\U{0434}\U{043F}\U{0443}\U{043D}\U{043A}\U{0442} A\n"
    + "\n"
    + "                  - \U{041F}\U{043E}\U{0434}\U{043F}\U{043E}\U{0434}\U{043F}\U{0443}\U{043D}\U{043A}\U{0442} a\n"
    + "\n"
    + "  - \U{041F}\U{0443}\U{043D}\U{043A}\U{0442} 2\n"
    + "\n"
    + "          + \U{041F}\U{043E}\U{0434}\U{043F}\U{0443}\U{043D}\U{043A}\U{0442} A\n"
    + "\n"
    + "                  * \U{041F}\U{043E}\U{0434}\U{043F}\U{043E}\U{0434}\U{043F}\U{0443}\U{043D}\U{043A}\U{0442} a\n"

  const DemoBlock8: string :=
    "\n"
    + "  ---\n"
    + "\n"
    + "  1. \U{041F}\U{0443}\U{043D}\U{043A}\U{0442} 1\n"
    + "\n"
    + "          + \U{041F}\U{043E}\U{0434}\U{043F}\U{0443}\U{043D}\U{043A}\U{0442} A\n"
    + "\n"
    + "                  - \U{041F}\U{043E}\U{0434}\U{043F}\U{043E}\U{0434}\U{043F}\U{0443}\U{043D}\U{043A}\U{0442} a\n"
    + "\n"
    + "  2. \U{041F}\U{0443}\U{043D}\U{043A}\U{0442} 2\n"

  const DemoBlock9: string :=
    "\n"
    + "          1. \U{041F}\U{043E}\U{0434}\U{043F}\U{0443}\U{043D}\U{043A}\U{0442} 2.1.\n"
    + "\n"
    + "                  1. \U{041F}\U{043E}\U{0434}\U{043F}\U{043E}\U{0434}\U{043F}\U{0443}\U{043D}\U{043A}\U{0442} 2.1.1\n"
    + "\n"
    + "  3. \U{041F}\U{0443}\U{043D}\U{043A}\U{0442} 3\n"

  const DemoText: string :=
    DemoBlock1 + DemoBlock2 + DemoBlock3 + DemoBlock4 + DemoBlock5 + DemoBlock6 + DemoBlock7 + DemoBlock8 + DemoBlock9

  /** No block of the demo text contains U+0000 (one obligation per block). */
  lemma Block1HasNoNul()
    ensures '\0' !in DemoBlock1
  {
  }

  lemma Block2HasNoNul()
    ensures '\0' !in DemoBlock2
  {
  }

  lemma Block3HasNoNul()
    ensures '\0' !in DemoBlock3
  {
  }

  lemma Block4HasNoNul()
    ensures '\0' !in DemoBlock4
  {
  }

  lemma Block5HasNoNul()
    ensures '\0' !in DemoBlock5
  {
  }

  lemma Block6HasNoNul()
    ensures '\0' !in DemoBlock6
  {
  }

  lemma Block7HasNoNul()
    ensures '\0' !in DemoBlock7
  {
  }

  lemma Block8HasNoNul()
    ensures '\0' !in DemoBlock8
  {
  }

  lemma Block9HasNoNul()
    ensures '\0' !in DemoBlock9
  {
  }

  /** The demo text is 802 characters long and free of U+0000, so the demo note fits the
      `notes` columns: the insert at signup is never refused and stores title and text
      unchanged. */
  lemma DemoNoteFits()
    ensures |DemoText| == 802
    ensures FitsColumns(DemoTitle, DemoText)
    ensures '\0' !in DemoTitle && '\0' !in DemoText
    ensures ColumnValue(DemoTitle, MaxTitleLength) == Success(DemoTitle)
    ensures ColumnValue(DemoText, MaxTextLength) == Success(DemoText)
    ensures Accepted(DemoTitle, DemoText)
  {
    assert |DemoBlock1| == 90;
    assert |DemoBlock2| == 101;
    assert |DemoBlock3| == 112;
    assert |DemoBlock4| == 74;
    assert |DemoBlock5| == 59;
    assert |DemoBlock6| == 59;
    assert |DemoBlock7| == 131;
    assert |DemoBlock8| == 94;
    assert |DemoBlock9| == 82;
    Block1HasNoNul();
    Block2HasNoNul();
    Block3HasNoNul();
    Block4HasNoNul();
    Block5HasNoNul();
    Block6HasNoNul();
    Block7HasNoNul();
    Block8HasNoNul();
    Block9HasNoNul();
  }
}
