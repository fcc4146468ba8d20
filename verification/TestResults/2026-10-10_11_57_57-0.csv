TestResult.DisplayName,TestResult.Outcome,TestResult.Duration,TestResult.ResourceCount,RandomSeed
LegacyHyper.Respond (well-formedness),Failed,00:00:01.0021805,2100672,1
LegacyHyper.Responds (well-formedness),Passed,00:00:00.1452305,39638,1
